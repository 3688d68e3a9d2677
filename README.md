# genesis-index version ledger, in Dafny

genesis-index is a small HTTP service that keeps an index of BOSH releases and
stemcells. An operator registers an artifact under a name with a download URL
template containing `{{version}}`. Asking the service to check a version
makes it fill in the template, fetch the file, record its SHA1 digest, and
list the version from then on. Four SQL tables hold the ledger:

- `releases(name, url)` and `stemcells(name, url)` map names to URL templates;
- `release_versions` and `stemcell_versions` hold rows `(name, version, vnum, sha1, url, valid)`.

A row is pending (`valid = 0`) while its fetch is outstanding. `vnum` is a
64-bit ordering key computed from the dotted version string.

This project models that ledger as Dafny code and proves its properties:

| module (file) | models |
|---|---|
| `Base` (base.dfy) | Go's `uint64`, optional values, results and the error kinds the store reports |
| `Util` (util.dfy) | `vnum`, with `strings.Split` and `strconv.ParseUint` written out, and `urlify` |
| `Tables` (tables.dfy) | row types, the PRIMARY KEY and UNIQUE constraints, and the SQL clauses the store uses (`WHERE`, `ORDER BY vnum DESC`, `GROUP BY`/`MAX`, `UPDATE`) as functions over sequences |
| `Schema` (schema.dfy) | class `Database`, whose four sequence fields are the four tables; migration v1 is its constructor, migration v2 the vnum backfill |
| `Ledger` (ledger.dfy) | the Create/Find/Delete/Check operations of stemcell.go and release.go |
| `Startup` (startup.dfy) | the sweep of pending release rows that main.go runs at startup |
| `Vcap` (vcap.dfy) | the service-tag search of `ParseVcap` |

stemcell.go and release.go are the same code over two pairs of tables. Each
operation is therefore written once, over a `Domain` (`Release` or
`Stemcell`). The version check is the exception, because the two copies
diverge:

- `CheckStemcellVersion` returns an error, and inserts nothing, when `vnum`
  rejects a new version.
- `CheckReleaseVersion` returns nothing. In the same case it skips the
  insert and still fetches.

They are written as two methods.

The check in the source runs its download in a goroutine; here it is one
sequential transition. The outcome of `sha1sum(url)` is a parameter
`fetched: Option<string>`: `None` for a failed download, `Some(digest)`
otherwise.

Cursor loops over query results are methods with loops. Each is proved
against a function that states the query: `Where` filters, `SortByVnumDesc`
sorts and `MaxValidVnum` takes the maximum, and the lemmas about those
functions carry the properties. SQL returns rows in an unspecified order.
Here the table order stands in for it, and a result of `ORDER BY vnum DESC`
is stated up to the order of equal vnums (`IsVnumDescOrder`: a permutation
of the selected rows, sorted by vnum, highest first).

Points where the code behaves in a way that is easy to miss:

- Deleting an absent version succeeds and changes nothing.
- A version lookup with an explicit version reports only "version not
  found". It never checks whether the artifact itself exists.
- The latest-versions join does not filter on `valid`. It can return several
  rows per name, pending ones included (`Tables.LatestRowsMayIncludePending`).
- The startup sweep deletes pending rows of `release_versions` only.
- Any HTTP response counts as a successful fetch.
- The success `UPDATE` matches nothing when the row is no longer there.
- Deleting an artifact is two separate statements, versions first.

## Model

| member | source | states |
|---|---|---|
| Util.Split | util.go:113 | `strings.Split(v, ".")` returns at least one part; with `SplitJoin` and `JoinSplit` it is the inverse of joining dot-free parts with "." |
| Util.SplitJoin | util.go:113 | joining the parts of a split gives back the input, and no part contains a dot |
| Util.JoinSplit | util.go:113 | splitting dot-free parts joined with "." gives back the parts |
| Util.SplitConcat | util.go:113 | the parts of `a.b` are the parts of `a` followed by the parts of `b` |
| Util.SplitNoDot | util.go:113 | a dot-free string splits into itself |
| Util.ParseUint | util.go:120 | `strconv.ParseUint(s, 10, 64)`: a non-empty all-digit string whose value is below 2^64 is read as that value, anything else is rejected; `ParseShow` and `ParseRejectsOutOfRange` characterise it against the decimal spelling |
| Util.ShowDecimalValue | util.go:120 | the decimal spelling of n is a non-empty digit string whose value is n |
| Util.ParseShow | util.go:120 | `ParseUint` (base 10, 64 bits) accepts the decimal spelling of every uint64 and returns that number |
| Util.ParseRejectsOutOfRange | util.go:120 | `ParseUint` rejects the spelling of every number at or above 2^64 |
| Util.Pad | util.go:114-116 | appending "0" while there are fewer than three parts yields at least three parts, keeps the existing ones, and fills only the new ones with "0" |
| Util.Components | util.go:113-120 | the parts vnum parses are exactly three: the split, padded, and cut to its first three |
| Util.Encode | util.go:118-126 | the key of (major, minor, patch): their base-1,000,000 value reduced modulo 2^64, with no per-component bound; `EncodeExact` and `VnumOrderPreserving` say when it is exact and order-preserving, `VnumCarryCollision` and `VnumWrapsAround` when it collides |
| Util.VnumOf | util.go:112-129 | vnum in closed form: the first three parts of the padded split are parsed, and an error results when one does not parse, otherwise their `Encode`; `Vnum` is proved equal to it and `VnumFormula`, `VnumPadding` and `VnumIgnoresExtra` characterise it |
| Util.WrapStep | util.go:118-126 | reducing the accumulator modulo 2^64 at each step gives the same result as reducing once at the end |
| Util.Vnum | util.go:112-129 | the method, with its padding loop and its three-step accumulation loop, returns exactly `VnumOf(v)`: an error as soon as one of the first three parts does not parse, otherwise the wrapped base-1,000,000 value of the three parts |
| Util.VnumPadding | util.go:114-116 | a version with fewer than three parts has the same vnum as the version with ".0" appended |
| Util.VnumPaddingExamples | util.go:114-116 | vnum("1.2") == vnum("1.2.0") and vnum("1") == vnum("1.0.0") |
| Util.VnumIgnoresExtra | util.go:119 | parts after the third are ignored, whatever they contain |
| Util.VnumIgnoresExtraExample | util.go:119 | vnum("1.2.3.x") == vnum("1.2.3") |
| Util.VnumFormula | util.go:118-126 | the vnum of "a.b.c" is (a*10^12 + b*10^6 + c) mod 2^64 |
| Util.EncodeExact | util.go:118-126 | with every component below 1,000,000 no wrapping happens, and the key is exactly a*10^12 + b*10^6 + c |
| Util.VnumExample | util.go:118-126 | vnum("1.2.3") == 1000002000003 |
| Util.VnumOrderPreserving | util.go:118-126 | with components below 1,000,000, one vnum is smaller than another exactly when its (major, minor, patch) is lexicographically smaller |
| Util.VnumCarryCollision | util.go:118-126 | with no per-component bound, "0.1000000.0" and "1.0.0" get the same vnum |
| Util.VnumWrapsAround | util.go:118-126 | two versions whose base-1,000,000 values differ by 2^64 get the same vnum |
| Util.VnumWrapsAroundExample | util.go:118-126 | vnum("18446744.73709.551616") == vnum("0.0.0") == 0: the first spells exactly 2^64, which wraps to 0 |
| Util.VnumRejectsMalformed | util.go:120-124 | vnum fails on "", on "1..2" and on "a.b.c" |
| Util.VnumRejectsOutOfRange | util.go:120-124 | vnum fails when the first part spells a number at or above 2^64 |
| Util.Urlify | util.go:17-20 | every leftmost, non-overlapping `{{version}}` in the template is replaced by the version verbatim, all other text copied; `UrlifyNoMarker` and `UrlifySplice` characterise it |
| Util.UrlifyNoMarker | util.go:17-20 | a template without `{{version}}` is returned unchanged |
| Util.UrlifySplice | util.go:17-20 | each marker is replaced in turn: the text before the leftmost marker is copied, whatever it contains, the marker becomes the version verbatim, and the rest is substituted the same way |
| Util.UrlifyLiteral | util.go:17-20 | a template with a single marker becomes the text around it with the version, verbatim, in its place |
| Util.UrlifyBraceExample | util.go:17-20 | the leftmost match wins: "{{{version}}}" becomes "{" + version + "}" |
| Util.UrlifyMarkerIdentity | util.go:17-20 | replacing every marker in a template with the marker itself gives back the template |
| Tables.PendingRow | schema.go:47-49 | the row the check's INSERT (stemcell.go:228) creates: the given name, version and vnum, with the column defaults sha1 '', url '' and valid 0; `CheckFailureRestores`, `DeleteUndoesInsert` and `CheckSuccessListed` say what becomes of it |
| Tables.Where | stemcell.go:73-74 | the rows a WHERE clause keeps are those of the table that satisfy it, and no more |
| Tables.WhereAppend | stemcell.go:73-74 | filtering distributes over concatenation |
| Tables.WhereAll | main.go:47 | a filter that every row passes changes nothing |
| Tables.WhereNone | stemcell.go:48-49 | a filter that no row passes gives the empty result |
| Tables.WhereNarrow | stemcell.go:164-166 | filtering by a weaker and then a stronger condition equals filtering by the stronger one |
| Tables.WhereKeepsUnique | schema.go:51 | every DELETE preserves the UNIQUE constraint |
| Tables.AppendKeepsUnique | schema.go:51 | inserting a row under a new key preserves uniqueness |
| Tables.KeysPreservedKeepsUnique | schema.go:51 | an UPDATE that changes no key preserves uniqueness |
| Tables.ValidRowsOf | stemcell.go:73-74 | `WHERE name = $1 AND valid = 1`: the valid rows of one name, in table order; `ListingsAreValidRows`, `WithoutNameExact` and `SweptExact` characterise it |
| Tables.WithoutName | stemcell.go:197 | the version rows `DELETE ... WHERE name = $1` leaves: every row of another name, in table order; `WithoutNameExact` characterises it |
| Tables.WithoutArtifact | stemcell.go:202 | the artifact rows `DELETE FROM stemcells WHERE name = $1` leaves; `WithoutArtifactExact` characterises it |
| Tables.WithoutKey | stemcell.go:206 | the rows `DELETE ... WHERE name = $1 AND version = $2` leaves: every row of another key, in table order; `WithoutKeyExact`, `WithoutAbsentKey` and `DeleteUndoesInsert` characterise it |
| Tables.WithoutAbsentKey | stemcell.go:205-207 | deleting an absent (name, version) changes nothing |
| Tables.DeleteUndoesInsert | stemcell.go:228-244 | deleting the key of a row just appended under a new key restores the table |
| Tables.WithoutKeyExact | stemcell.go:205-207 | after deleting a key, exactly the rows of other keys remain, and the key is absent |
| Tables.WithoutNameExact | stemcell.go:196-203 | after deleting a name, no row of it remains, and the valid rows of every other name are unchanged |
| Tables.WithoutArtifactExact | stemcell.go:196-203 | after deleting an artifact it is absent, and every other name is present exactly when it was before |
| Tables.SortByVnumDesc | stemcell.go:76-77 | one order `ORDER BY vnum DESC` may return (ties in any order): an insertion sort by vnum, highest first; `SortByVnumDescCorrect` proves it a vnum-descending permutation |
| Tables.InsertByVnumMultiset | stemcell.go:76-77 | inserting into vnum order adds exactly the row |
| Tables.SortedTail | stemcell.go:76-77 | the tail of a vnum-descending sequence is vnum-descending and lies below its head |
| Tables.InsertByVnumSorted | stemcell.go:76-77 | inserting into a vnum-descending sequence keeps it vnum-descending |
| Tables.SortByVnumDescCorrect | stemcell.go:76-77 | `ORDER BY vnum DESC` returns a permutation of its input with vnum non-increasing |
| Tables.FirstHasMaxVnum | stemcell.go:168-170 | the first row of a vnum-descending order is one of the rows and has the highest vnum |
| Tables.MaxValidVnum | stemcell.go:114-120 | MAX(vnum) over a name's valid rows is None exactly when there is no such row; otherwise it is attained by a valid row and bounds all of them |
| Tables.LatestRows | stemcell.go:104-126 | the inner join of the latest-versions query: every row, valid or pending, whose vnum equals the highest valid vnum of its name, in table order; `LatestRowsAreMaximal`, `LatestRowsCoverNames` and `LatestRowsMayIncludePending` characterise it |
| Tables.LatestRowsAreMaximal | stemcell.go:101-126 | every row of the latest-versions join carries the highest valid vnum of its name: that maximum exists, a valid row of the name attains it, and it bounds every valid row of the name |
| Tables.LatestRowsCoverNames | stemcell.go:101-126 | a name appears in the join exactly when it has a valid row |
| Tables.LatestRowsMayIncludePending | stemcell.go:111-125 | a pending "1.2.0" that ties a valid "1.2" is returned alongside it |
| Tables.MarkValid | stemcell.go:249-256 | the success `UPDATE ... SET valid = 1, url = $3, sha1 = $4` on one key, every other row unchanged; `MarkValidEffect`, `MarkValidMakesVisible` and `MarkValidAbsent` characterise it |
| Tables.MarkValidEffect | stemcell.go:249-256 | the success UPDATE keeps every key and vnum and never demotes a valid row; it leaves rows of other keys alone; it makes the key's row valid with the url and digest |
| Tables.MarkValidMakesVisible | stemcell.go:249-256 | after the success UPDATE on a present key, the version is among the valid rows of its name, with the url and digest |
| Tables.MarkValidAbsent | release.go:242-249 | the success UPDATE on an absent key changes nothing |
| Tables.MarkValidKeepsUnique | schema.go:67 | the success UPDATE preserves uniqueness |
| Tables.SetVnum | schema.go:93 | the backfill's `UPDATE ... SET vnum = $1 WHERE name = $2 AND version = $3`, every other row unchanged; `SetVnumAt` and `BackfillStep` characterise it |
| Tables.SetVnumAt | schema.go:93-94 | under the UNIQUE constraint the vnum UPDATE by key changes exactly the vnum of the row at the key's position |
| Schema.Database.constructor | schema.go:21-75 | migration v1 creates the four tables empty, satisfying their constraints |
| Schema.Database.SetVersions | stemcell.go:228-256 | replaces one version table, which must keep UNIQUE(name, version) as the database enforces, and leaves the other three tables as they were and the database valid |
| Schema.Database.SetArtifacts | stemcell.go:17-19 | replaces one artifact table, which must keep its PRIMARY KEY(name) as the database enforces, and leaves the other three tables as they were and the database valid |
| Schema.FirstMalformed | schema.go:84-92 | finds the first row in table order whose version vnum rejects, with every earlier row accepted; None means every row is accepted |
| Schema.FirstMalformedAt | schema.go:89-92 | a rejected row with every earlier row accepted is the first malformed row |
| Schema.FirstMalformedNone | schema.go:89-92 | a table whose every row vnum accepts has no malformed row |
| Schema.BackfillOnlyVnum | schema.go:93 | the backfill changes only the vnum column: same number and order of rows, and the same name, version, sha1, url and valid |
| Schema.BackfillConsistent | schema.go:76-99 | after a complete backfill every row's vnum is vnum(version) |
| Schema.BackfillKeepsUnique | schema.go:67 | the backfill preserves uniqueness |
| Schema.BackfillStep | schema.go:93-94 | one per-row UPDATE by key extends the backfilled prefix by exactly that row |
| Schema.BackfillTable | schema.go:80-98 | backfilling one table stops at the first malformed row with an error, keeping the prefix already updated; without a malformed row it backfills every row |
| Schema.MigrateV2 | schema.go:76-102 | release_versions is backfilled before stemcell_versions. The first malformed version aborts with an error and nothing is rolled back. With no malformed version, both tables are fully backfilled and nothing else changes |
| Ledger.CreateArtifact | stemcell.go:17-19 | the insert fails with a conflict, changing nothing, exactly when the name exists; otherwise exactly the artifact (name, url) is added and the version tables are unchanged |
| Ledger.FindAllArtifacts | stemcell.go:21-38 | returns the artifact names in table order, each exactly once under the PRIMARY KEY; a name is listed exactly when the artifact exists |
| Ledger.FindArtifact | stemcell.go:40-58 | succeeds exactly when the artifact exists, with a row of that name; otherwise "not found" |
| Ledger.FindArtifactUnique | stemcell.go:40-58 | under the PRIMARY KEY the artifact found is the only one of its name |
| Ledger.CreateThenFind | release.go:17-58 | after a create, a lookup finds the artifact with the URL it was created with |
| Ledger.FindAllVersions | stemcell.go:61-98 | lists the artifact's valid rows in vnum-descending order. An empty list is returned without error exactly when the artifact exists; otherwise the error is "not found" |
| Ledger.ListingsAreValidRows | stemcell.go:61-98 | every listing comes from a valid row of the artifact, every valid row is listed, and vnum is non-increasing down the list |
| Ledger.FindLatestVersions | stemcell.go:101-140 | the cursor loop returns the listings of the latest-versions join |
| Ledger.LatestListings | release.go:101-139 | every listed row has the highest valid vnum of its name, and every name with a valid row is listed |
| Ledger.Candidates | stemcell.go:145-166 | the version lookup selects the valid rows of the name, and of the version when one is given |
| Ledger.FindVersion | stemcell.go:142-194 | succeeds exactly when a matching valid row exists. With no version the result has the highest valid vnum. With a version it is that version. Otherwise the error is "version not found", or, with no version, "no known versions" when the artifact exists and "not found" when it does not |
| Ledger.DeleteArtifact | stemcell.go:196-203 | deletes every version row of the name, then the artifact, and touches nothing else |
| Ledger.DeleteVersion | stemcell.go:205-207 | deletes the rows of the one (name, version) key; on an absent key it succeeds and changes nothing |
| Ledger.DeleteArtifactThenFind | release.go:196-203 | after deleting an artifact, neither it nor any version of it is found |
| Ledger.DeleteVersionThenFind | release.go:205-207 | after deleting a version, looking it up gives "version not found" |
| Ledger.CheckedRows | stemcell.go:220-256 | the net effect of one version check on its table (both stemcell.go:220-256 and release.go:220-249): claim a new key with a pending row when vnum accepts the version, delete it again on a failed fetch unless it was present before, mark it valid with url and digest on success; `CheckFailureRestores`, `CheckMalformedUnchanged`, `CheckSuccessListed`, `CheckOnlyTouchesKey`, `CheckNeverDemotes`, `CheckKeepsUnique` and `CheckThenFind` characterise it |
| Ledger.CheckFailureRestores | stemcell.go:220-247 | a failed fetch leaves the version table as it was: the pending row the check inserted is deleted again, and a row that was already there is kept |
| Ledger.CheckMalformedUnchanged | release.go:222-249 | a new version that vnum rejects leaves the table unchanged whatever the fetch does, because the later DELETE and UPDATE match no row |
| Ledger.CheckSuccessListed | stemcell.go:228-256 | after a successful check the version is listed with the url and digest; a new version's row carries vnum(version) |
| Ledger.CheckOnlyTouchesKey | stemcell.go:228-256 | a check keeps every row of another key, and adds no row of another key |
| Ledger.CheckNeverDemotes | stemcell.go:240-256 | a key with a valid row still has a valid row after a check, whatever the fetch does |
| Ledger.CheckKeepsUnique | schema.go:67 | a check preserves uniqueness |
| Ledger.UniqueKeyRow | schema.go:51 | under the UNIQUE constraint two rows with the same key are the same row |
| Ledger.CheckThenFind | stemcell.go:209-265 | after a successful check, looking the version up returns exactly the fetched url and digest |
| Ledger.CheckStemcellVersion | stemcell.go:209-265 | an unknown stemcell gives "not found" and a new version vnum rejects gives an error, both with the store unchanged; otherwise the check succeeds and the version table becomes `CheckedRows` with url = urlify(template, version) |
| Ledger.CheckReleaseVersion | release.go:209-255 | an unknown release leaves the store unchanged; otherwise the version table becomes `CheckedRows` with url = urlify(template, version), even when vnum rejects the version |
| Startup.Swept | main.go:47 | the release versions `DELETE FROM release_versions WHERE valid = 0` leaves: the valid rows, in table order; `SweptExact`, `SweepIdempotent`, `SweepKeepsMax` and `SweptLatestAllValid` characterise it |
| Startup.CleanHouse | main.go:47 | deletes the pending rows of release_versions and touches no other table |
| Startup.SweptExact | main.go:47 | after the sweep exactly the valid rows remain, and every name's valid rows are unchanged |
| Startup.SweepIdempotent | main.go:47 | a second sweep deletes nothing |
| Startup.SweepKeepsMax | main.go:47 | the sweep does not change any name's highest valid vnum |
| Startup.SweptLatestAllValid | main.go:47 | after the sweep the latest-versions join returns only valid rows |
| Vcap.IsTagged | vcap.go:27-36 | the tag loops with their labelled break find a match exactly when one of the service's tags is requested |
| Vcap.ParseVcap | vcap.go:8-48 | the search succeeds exactly when some service is both tagged and has the subkey, and then returns that key's credential from the first such service, in list order and then service order. Otherwise the error is "no satisfactory service"; an empty tag list always errs, and an undecodable document is an error |

## Left out

- The HTTP layer (api_release.go, api_stemcell.go, `respond`, `bail`, `match`, `extract`) and `authed` are not part of this model. They are request routing, payload decoding and Basic-Auth checking around the store.
- `sha1sum` is not modelled. It is an HTTP GET plus the SHA-1 library, and its outcome is the `fetched` parameter of the checks. Any HTTP response counts as a success, since the code checks neither the status nor the copy.
- The goroutine of `CheckStemcellVersion` and the API handlers is not modelled. Each check is one sequential transition, so races between concurrent checks of the same key are out of scope.
- The INSERT of a pending row cannot conflict in a sequential model, because the key was just counted as absent. For the same reason the release check's ignored insert result has no effect here.
- Storage errors are not modelled: connection failures, failed queries or scans, and driver selection (schema.go:9-19, main.go:26-44). Neither is go-db's migration bookkeeping (schema.go:104). A failing `Count` would read as 0, which is not modelled either.
- The duplicate-row errors after `LIMIT 1` and under the PRIMARY KEY (stemcell.go:54, stemcell.go:189, and the same lines of release.go) are unreachable and not modelled.
- Column widths (`VARCHAR(200)`, `VARCHAR(20)`) are not modelled: how they are enforced depends on the SQL driver. Neither is the signedness of the `BIGINT` vnum column: a vnum of 2^63 or more is modelled as the uint64 vnum computes.
- `ParseVcap` decodes JSON with `encoding/json` and formats credentials with `%s`. Here the decoded services are the input, None stands for a document that does not decode, and credentials are strings. The order of Go's map iteration over the service labels is the order of the outer sequence, which the caller chooses.
- Ledger.FindAllVersions: the source's SQL row order among equal vnums is unspecified. The contract therefore states the result up to that order, as some vnum-descending permutation of the valid rows.
- Ledger.FindVersion: `LIMIT 1` among rows of equal highest vnum may return any of them. The contract requires only a row of highest vnum, so it does not fix which one.
- Logging is not modelled.
