# tea-selector data layer, in Dafny

This project models the data-access layer of tea-selector (`api/internal/database`). The layer is the
Go code that keeps tea types, owners, teas and users in a SQLite file. It also keeps the
many-to-many relation saying which owner holds which tea, and it builds three aggregate views:
teas by type, teas by owner, and teas with their owners. At start-up it creates the schema and
inserts the seed names from the configuration.

The database is an immutable `Tables.Store`. It holds one map per table, the AUTOINCREMENT
counters, the set of tea/owner pairs, and the connection's foreign-key switch. The constraints
that the `CREATE TABLE` texts declare become the statement functions of module `Tables`:
`name UNIQUE`, the composite primary key, `ON DELETE RESTRICT`, and the username primary key.
Every Go method becomes a pure function over the store, or a method where the Go code loops.
Each one hands back its `error`, the struct it filled in through its pointer argument, and the
store afterwards. None of the queries has an `ORDER BY`, so SQLite promises no row order. The
model assumes that every scan and join lists its rows in ascending id order, and the ordering
lemmas below hold under that assumption only.

`Tables.Inv` is the integrity invariant: the full schema exists, foreign keys are enforced, ids
come from the counters, names are unique, and every tea type and every pair resolves. Every
operation that writes preserves it.

Modules, one per source file:

- `Tables`: the store, its errors with their texts, and one function per SQL statement.
- `Rows`: table scans and the single-row read-back.
- `Models`: the records of `api/internal/models`.
- `TeaTypes`, `Teas`, `Owners`, `Ownership`, `Users`: the per-entity files.
- `Seed`: the seed `INSERT` text and a reader for it.
- `Strings`: `strings.Contains`.
- `Bootstrap`: start-up, from `database.go`.

The per-entity files (methods on a `Database` handle) and `database.go` (functions on the
global handle `DB`) send the same SQL. The start-up functions of `database.go`, from
`createDatabase` to `createUserTable`, end the process through `checkError` on any error; the
per-entity `createXTable` methods return their errors instead. From `GetPasswordFromDatabase`
on, the functions of `database.go` return errors just as the methods do. Start-up is modelled
from `database.go`. The queries are modelled from the per-entity files, except the owner delete:
the method keeps the lookup's rows open until it returns (api/internal/database/owner.go:89),
while `database.go` closes them before the `DELETE` (api/internal/database/database.go:315).
`Owners.DeleteOwner` models the latter, and the Findings below record the former. The
constructor of the per-entity handle is not part of this model, so nothing here fixes that
handle's pool size; the global handle is limited to one connection.

Start-up takes a `Seed.Quoting` argument that says how seed names are written into the seed
statement. `Spliced` is what the code does: each name goes between quotes as it is. `Escaped`
doubles every quote inside the name first, which is the repair that the Findings below describe.
Every start-up lemma that holds for both ways takes the argument. The lemmas that show the
defect fix it to `Spliced`.

## Model

| member | source | states |
|---|---|---|
| Tables.CreateTable | api/internal/database/database.go:57-62 | `CREATE TABLE` succeeds exactly when the table is not yet in the schema; it then appends the table and changes nothing else |
| Tables.InsertType | api/internal/database/teatype.go:11-14 | an insert into `types` succeeds exactly when no row has the name; the new row gets the next AUTOINCREMENT id; a taken name gives the UNIQUE error and no change; the invariant is preserved |
| Tables.DeleteType | api/internal/database/tea.go:14-17 | deleting a type fails with the FOREIGN KEY error exactly when it exists, enforcement is on and a tea uses it; otherwise only that row goes |
| Tables.InsertOwner | api/internal/database/owner.go:11-14 | as for types, on the owner table, with the error `UNIQUE constraint failed: owner.name` |
| Tables.DeleteOwner | api/internal/database/teaowner.go:19-21 | deleting an owner is restricted exactly while a pair names them |
| Tables.InsertTea | api/internal/database/tea.go:11-18 | a tea insert checks the UNIQUE name first and then the type reference; the row gets the next id; the invariant is preserved |
| Tables.DeleteTea | api/internal/database/teaowner.go:16-18 | deleting a tea is restricted exactly while a pair names it |
| Tables.InsertPair | api/internal/database/teaowner.go:12-22 | a pair insert fails on a present pair (composite key) and then on a missing tea or owner; on success exactly that pair is added |
| Tables.DeletePair | api/internal/database/teaowner.go:107 | removing a pair removes exactly that pair and keeps the invariant |
| Tables.InsertUser | api/internal/database/user.go:10-13 | a user insert succeeds exactly when the username is new, and stores the hash under it |
| Tables.UpdateUser | api/internal/database/user.go:35 | an update rewrites the hash of a present username and leaves the store alone for an absent one |
| Tables.InsertNamesAccepts | api/internal/database/database.go:77-78 | a multi-row name insert into a unique table succeeds exactly when the names are distinct and none is taken |
| Tables.InsertNamesKeeps | api/internal/database/database.go:77-78 | after an accepted multi-row insert the counter has advanced by one per name and ids and names still obey the table's rules |
| Tables.InsertNamesRows | api/internal/database/database.go:64-78 | after an accepted multi-row insert the scan shows the old rows and then the new names, numbered in order |
| Rows.Scan | api/internal/database/teatype.go:42-56 | a full scan holds exactly the rows of the table in the id range |
| Rows.ScanAscending | api/internal/database/teatype.go:42-56 | a full scan lists its rows in strictly ascending id order, the order the model assumes for SQLite |
| Rows.FirstWhere | api/internal/database/teatype.go:111-118 | reading one row of a filtered scan gives the id of a row that matches; nothing is found only when no row matches |
| Strings.Contains | api/internal/database/teaowner.go:88 | `strings.Contains` is true exactly when the text occurs at some position |
| TeaTypes.GetAllTeaTypes | api/internal/database/teatype.go:41-57 | the listing holds exactly the rows of the types table |
| TeaTypes.TypesAscending | api/internal/database/teatype.go:41-57 | the types are listed in strictly ascending id order |
| TeaTypes.EmptyTypesList | api/internal/database/teatype.go:48-56 | an empty types table lists as the empty list |
| TeaTypes.GetTeaType | api/internal/database/teatype.go:60-64 | the lookup succeeds exactly for a present id and fills in its name; otherwise it reports no rows and leaves the record as given |
| TeaTypes.CreateTeaType | api/internal/database/teatype.go:106-119 | creation succeeds exactly for a name not yet taken; the record gets the new row's id and keeps its name; a taken name gives the UNIQUE error and no change; the invariant is preserved |
| TeaTypes.CreateThenGet | api/internal/database/teatype.go:106-119 | a created type reads back under the id the creation reported |
| TeaTypes.CreateTwiceConflicts | api/internal/database/teatype.go:107-108 | creating the same name again violates UNIQUE and changes nothing |
| TeaTypes.CreateThenList | api/internal/database/teatype.go:106-119 | in a consistent store the new type is listed last, after all earlier types |
| TeaTypes.DeleteTeaType | api/internal/database/teatype.go:122-136 | a missing id fails the read before any delete and hands the record back as the caller passed it; a present id fills in the name, then the delete is restricted exactly while a tea uses the type, and otherwise only that row goes |
| TeaTypes.DeleteThenGet | api/internal/database/teatype.go:122-136 | after a successful delete the type is gone and the lookup reports no rows |
| TeaTypes.DeleteInUseRejected | api/internal/database/teatype.go:134 | in a consistent store a type some tea uses cannot be deleted, and the store is unchanged |
| TeaTypes.TeasOfType | api/internal/database/teatype.go:85-99 | the per-type query gives exactly the teas whose type id is the type's, each stamped with that type |
| TeaTypes.TypeTeasAscending | api/internal/database/teatype.go:85-99 | the teas of a type are listed in strictly ascending id order |
| TeaTypes.CollectOfType | api/internal/database/teatype.go:90-99 | the inner loop over the tea rows builds exactly the per-type list |
| TeaTypes.GetAllTypesTeas | api/internal/database/teatype.go:67-103 | the view has one entry per listed type, in listing order, types without teas included, each with exactly that type's teas |
| TeaTypes.TypesTeasCoverTeas | api/internal/database/teatype.go:67-103 | in a consistent store every tea shows up under its own type, and that type is listed |
| Teas.GetAllTeas | api/internal/database/tea.go:34-51 | the listing holds exactly the teas whose type exists, each joined with its type |
| Teas.TeasAscending | api/internal/database/tea.go:34-51 | the teas are listed in strictly ascending id order |
| Teas.ListedTeas | api/internal/database/tea.go:35 | in a consistent store the join drops no tea |
| Teas.GetTea | api/internal/database/tea.go:54-59 | the lookup as written keeps the caller's id; it succeeds exactly when some listed tea has TYPE id equal to that id, and then takes name and type from such a tea; otherwise it reports no rows |
| Teas.GetTeaSoleOfType | api/internal/database/tea.go:55 | when exactly one listed tea has the given type id, the lookup as written returns that tea under the caller's id |
| Teas.GetTeaWrongTea | api/internal/database/tea.go:55 | in a store where tea 1 has type 2 and tea 2 has type 1, asking for tea 1 returns tea 2's name and type under id 1, while the intended lookup returns tea 1 |
| Teas.GetTeaById | api/internal/database/tea.go:53-59 | the intended lookup succeeds exactly for a present tea whose type exists, and returns that tea's name and type |
| Teas.GetTeaByIdListed | api/internal/database/tea.go:34-59 | in a consistent store the intended lookup succeeds exactly for the ids of listed teas, and returns the listed tea |
| Teas.CreateTea | api/internal/database/tea.go:62-78 | a missing type gives "Tea type does not exist or is missing" with no change; otherwise the type name is filled in, a taken name gives the UNIQUE error with no change, and success adds one row under the next id; the invariant is preserved |
| Teas.CreateTeaKeepsTypes | api/internal/database/tea.go:63-66 | because of the type check, every tea's type exists after a creation even with enforcement off |
| Teas.CreateTeaThenGet | api/internal/database/tea.go:62-78 | a created tea reads back by its new id with its name and type |
| Teas.CreateTeaThenList | api/internal/database/tea.go:62-78 | a created tea is listed last, after every tea listed before |
| Teas.DeleteTea | api/internal/database/tea.go:81-95 | a missing id fails before any delete; a present id fills in the name, then the delete is restricted exactly while an owner holds the tea, and otherwise only that row goes |
| Teas.DeleteTeaThenGet | api/internal/database/tea.go:81-95 | after a successful delete the tea is not found |
| Teas.DeleteHeldTeaRejected | api/internal/database/tea.go:93 | in a consistent store a held tea cannot be deleted, and the store is unchanged |
| Owners.GetAllOwners | api/internal/database/owner.go:40-56 | the listing holds exactly the owner rows |
| Owners.OwnersAscending | api/internal/database/owner.go:40-56 | the owners are listed in strictly ascending id order |
| Owners.EmptyOwnersList | api/internal/database/owner.go:40-56 | an empty owner table lists as the empty list |
| Owners.GetOwner | api/internal/database/owner.go:59-64 | the lookup succeeds exactly for a present id and fills in the name; otherwise it reports no rows |
| Owners.CreateOwner | api/internal/database/owner.go:67-81 | creation succeeds exactly for a new name and reports the new id; a taken name gives the UNIQUE error and no change |
| Owners.CreateThenGet | api/internal/database/owner.go:67-81 | a created owner reads back under the reported id |
| Owners.CreateTwiceConflicts | api/internal/database/owner.go:68-69 | creating the same name again violates UNIQUE and changes nothing |
| Owners.CreateThenList | api/internal/database/owner.go:67-81 | in a consistent store a created owner is listed last |
| Owners.DeleteOwner | api/internal/database/database.go:304-319 | a missing id fails before any delete; a present id fills in the name, the lookup's rows are closed, then the delete is restricted exactly while the owner holds a tea |
| Owners.DeleteThenGet | api/internal/database/database.go:304-319 | after a successful delete the owner is gone |
| Owners.DeleteOwnerHoldingRows | api/internal/database/owner.go:84-98 | with the lookup's rows still open, the delete waits for ever exactly when the id exists and the pool allows one connection; a missing id fails the scan and changes nothing; otherwise the `DELETE` runs under the foreign-key setting of the second connection it gets |
| Owners.DeleteOwnerWaits | api/internal/database/owner.go:89-96 | on a one-connection pool, deleting an existing owner that holds no tea never returns, while closing the rows first removes the owner |
| Owners.DeleteOwnerDangles | api/internal/database/owner.go:89-96 | on a larger pool whose second connection does not enforce foreign keys, an owner who holds a tea is deleted from a consistent store and the pair is left naming no owner, while closing the rows first refuses the delete |
| Owners.DeleteHolderRejected | api/internal/database/owner.go:96 | in a consistent store an owner who holds a tea cannot be deleted, and the store is unchanged |
| Owners.TeasOfOwner | api/internal/database/owner.go:119-131 | the per-owner query gives exactly the joined teas paired with the owner |
| Owners.OwnerTeasAscending | api/internal/database/owner.go:119-131 | the teas of an owner are listed in strictly ascending id order |
| Owners.CollectHeld | api/internal/database/owner.go:124-131 | the inner loop builds exactly the per-owner list |
| Owners.GetAllOwnersTeas | api/internal/database/owner.go:101-135 | the view has one entry per listed owner, in listing order, each with exactly that owner's teas |
| Owners.OwnersTeasCoverPairs | api/internal/database/owner.go:101-135 | in a consistent store every pair shows up: its owner is listed and its tea is among the owner's teas |
| Ownership.GetTeaOwners | api/internal/database/teaowner.go:31-48 | the owners of a tea are exactly the listed owners paired with it; an unknown tea gives an empty list and no error |
| Ownership.UnknownTeaNoOwners | api/internal/database/teaowner.go:31-48 | in a consistent store a tea that does not exist has no owners |
| Ownership.GetAllTeaOwners | api/internal/database/teaowner.go:51-80 | the view has one entry per listed tea, in listing order, each with exactly that tea's owners |
| Ownership.PairsListed | api/internal/database/teaowner.go:51-80 | in a consistent store every pair shows up: its tea is listed and its owner is among the tea's owners |
| Ownership.ClassifyPairInsertError | api/internal/database/teaowner.go:87-94 | an error whose text holds the UNIQUE text becomes "This relationship already exists"; otherwise one holding the FOREIGN KEY text becomes the missing-id message; any other error passes through |
| Ownership.UniqueClassified | api/internal/database/teaowner.go:88-89 | every UNIQUE violation is reported as an existing relationship |
| Ownership.ForeignKeyClassified | api/internal/database/teaowner.go:91-92 | the FOREIGN KEY violation is reported as a missing tea or owner |
| Ownership.OtherErrorsPassThrough | api/internal/database/teaowner.go:94 | errors carrying neither text pass through unchanged |
| Ownership.CreateTeaOwner | api/internal/database/teaowner.go:83-103 | a present pair gives "This relationship already exists"; with enforcement on, a missing tea or owner gives the missing-id message; both cases return the zero tea and change nothing; success adds exactly the pair and returns the tea joined with its type; an accepted pair whose tea does not read back gives "Tea ID not found after insert" with the zero tea, and the pair stays stored |
| Ownership.DanglingPairKept | api/internal/database/teaowner.go:86-100 | with foreign keys off, pairing a missing tea reports "Tea ID not found after insert" yet keeps the pair, which then names no tea |
| Ownership.CreateTwiceDuplicate | api/internal/database/teaowner.go:86-90 | adding the same pair twice reports an existing relationship the second time and changes nothing |
| Ownership.CreateThenOwnersOfTea | api/internal/database/teaowner.go:83-103 | in a consistent store, pairing an existing tea and owner succeeds, returns the tea, and the owner is then among the tea's owners |
| Ownership.DeleteTeaOwner | api/internal/database/teaowner.go:106-109 | removing a pair always reports success, removes exactly that pair and changes nothing else |
| Ownership.DeleteThenOwnersOfTea | api/internal/database/teaowner.go:106-109 | after a removal the owner is no longer among the tea's owners, and every other owner still is |
| Ownership.DeleteAbsentPair | api/internal/database/teaowner.go:107-108 | removing an absent pair gives the same result as success and changes nothing |
| Users.GetPassword | api/internal/database/user.go:22-31 | a present username gives its stored hash; an absent one gives "" and no rows |
| Users.ChangePassword | api/internal/database/user.go:34-37 | a change never fails; it rewrites only that user's hash, and changes nothing for an absent username |
| Users.CreateUser | api/internal/database/user.go:40-44 | creation succeeds exactly for a new username; a taken one gives the key error and no change |
| Users.CreateThenGet | api/internal/database/user.go:22-44 | a created user's password reads back as the stored hash |
| Users.CreateTwiceConflicts | api/internal/database/user.go:40-44 | creating a username twice fails the second time and changes nothing |
| Users.ChangeThenGet | api/internal/database/user.go:22-37 | after a change the new hash reads back, and every other user keeps theirs |
| Users.ExactUsernames | api/internal/database/user.go:23 | usernames are matched exactly: "Alice" is not found as "alice" |
| Seed.BuildSeedInsert | api/internal/database/database.go:64-76 | the string-builder loop writes the statement head, then `('n')` per name in order separated by `, `, then `;` |
| Seed.SeedRoundTrip | api/internal/database/database.go:64-76 | for names without quotes, the seed statement reads back as exactly the configured names, in order |
| Seed.EmptySeedRejected | api/internal/database/database.go:64 | with no names the statement would be malformed, which is why none is sent |
| Seed.QuotedSeedRejected | api/internal/database/database.go:72 | a type name with a quote, such as "Earl's", makes the seed statement malformed |
| Seed.QuotedSeedSplits | api/internal/database/database.go:111 | one owner name "a'), ('b" makes the seed statement insert two owners, "a" and "b" |
| Seed.SeedEscapedRoundTrip | api/internal/database/database.go:64-76 | with every quote doubled, the seed statement reads back as exactly the configured names, whatever they contain |
| Seed.SeedStatementRoundTrip | api/internal/database/database.go:64-76 | the seed statement reads back as exactly the configured names, in order, whenever they are escaped or free of quotes |
| Bootstrap.Open | api/internal/database/database.go:33-37 | opening a store turns foreign-key enforcement on and limits the pool to one connection, changing nothing else |
| Bootstrap.SeedTable | api/internal/database/database.go:64-79 | an empty seed list sends nothing; otherwise the rows the statement reads as are inserted all or none, and a failure leaves the table unchanged |
| Bootstrap.SeedKeeps | api/internal/database/database.go:64-79 | an accepted seed keeps ids within the counter and names unique |
| Bootstrap.SeedFresh | api/internal/database/database.go:64-79 | seeding an empty table with names that read back (escaped, or free of quotes) succeeds exactly when they are distinct, and the table then lists them numbered from 1 |
| Bootstrap.CreateDatabase | api/internal/database/database.go:42-54 | a completed creation has one connection and all five tables in dependency order |
| Bootstrap.ExitsOnlyFromSeeds | api/internal/database/database.go:42-144 | a fresh start-up exits only from a seed step, and the exit keeps the store committed so far |
| Bootstrap.FreshConsistent | api/internal/database/database.go:42-54 | a completed fresh start-up leaves a consistent store with no teas, pairs or users |
| Bootstrap.InitialiseDatabase | api/internal/database/database.go:24-40 | an existing store is only opened; a missing one is created |
| Bootstrap.FreshShape | api/internal/database/database.go:42-54 | table creation never fails on a fresh store: the first rejected seed ends start-up with its error, leaving the tables created so far, and otherwise the store holds the five tables, the seeded types and owners and nothing else |
| Bootstrap.FailedOwnerSeedExits | api/internal/database/database.go:95-119 | a rejected owner seed after an accepted type seed ends start-up with that seed's error and leaves the types, tea and owner tables with the types seeded |
| Bootstrap.SeedsAccepted | api/internal/database/database.go:42-54 | with both seeds accepted, start-up runs on all five tables holding only the seeded types and owners |
| Bootstrap.FreshBootstrap | api/internal/database/database.go:42-144 | with seed names that read back (escaped, or free of quotes), a fresh start-up runs exactly when each list is free of repeats, and the types and owner tables then list exactly the seed names with ids 1, 2, ... in order |
| Bootstrap.BootstrapTwice | api/internal/database/database.go:28-38 | starting again on the store a fresh start-up left behind changes nothing |
| Bootstrap.DuplicateSeedExits | api/internal/database/database.go:77-78 | a repeated seed type name ends start-up with "Error inserting types into the database: UNIQUE constraint failed: types.name" |
| Bootstrap.FailedTypeSeedExits | api/internal/database/database.go:18-22 | a rejected type seed ends start-up with that seed's error, after which nothing else runs, leaving only the empty types table |
| Bootstrap.RestartAfterFailedTypeSeed | api/internal/database/database.go:24-40 | after an exit on the type seed, the next start-up finds the file, only opens it and runs on a store that has the types table alone, so the integrity invariant fails |
| Bootstrap.RestartAfterFailedOwnerSeed | api/internal/database/database.go:24-40 | after an exit on the owner seed, the next start-up runs on a store without the pair and user tables, so the integrity invariant fails |
| Bootstrap.QuotedSeedExits | api/internal/database/database.go:72-78 | the seed type name "Earl's" ends start-up with a syntax error |
| Bootstrap.InjectedSeedSplits | api/internal/database/database.go:111-117 | the seed owner name "a'), ('b" starts a store that lists two owners, "a" and "b" |
| Bootstrap.EscapedSeedsKept | api/internal/database/database.go:64-79 | with the names escaped, the type "Earl's" and the owner "a'), ('b" are each stored as the one row of their table, with id 1 |
| Bootstrap.SingleSeeds | api/internal/database/database.go:42-144 | one seed type and one seed owner that read back start a store listing exactly that type and that owner, each with id 1 |
| Bootstrap.CreationOrderTargetsFirst | api/internal/database/database.go:49-53 | tables are created so that every foreign-key target exists before the table that refers to it |

## Left out

- The `os.Stat` existence check is the `existing: Option<Store>` argument of `Bootstrap.InitialiseDatabase`. Failures of `sql.Open`, logging, and the error of the ignored `PRAGMA` result are not modelled.
- Bootstrap.InitialiseDatabase: a restart on the half-created store that a failed seed leaves runs, but the model does not make later queries fail with "no such table". The entity operations do not look at the schema, so they read a missing table as empty; `Bootstrap.RestartAfterFailedTypeSeed` states only that such a store breaks the integrity invariant.
- Concurrency is not modelled. The model is sequential. The connection pool appears only as its size, which matters only to `Owners.DeleteOwnerHoldingRows`.
- Owners.DeleteOwnerHoldingRows: foreign-key enforcement is a setting of each connection, turned on by one `PRAGMA` on one connection (api/internal/database/database.go:37, :47). Which pooled connection serves each statement is not modelled, so the setting of the connection the `DELETE` gets is the argument `otherEnforces`. Every other operation takes the store's single `foreignKeys` flag as the setting of the connection it runs on, which is exact for a pool of one.
- Query errors from the driver are not modelled (connection lost, disk full, and the like). Only errors that follow from the store's contents and constraints are.
- A nil slice and an empty slice are both the empty `seq`. They differ only once serialised to JSON.
- SQLite gives no row order without `ORDER BY`. Every scan and join is modelled in ascending id order. This is an assumption: for the joins that start from `teaOwners`, SQLite may return rows in the order the pairs were inserted.
- Teas.GetTea: which tea a multi-match returns depends on the join order; the contract says only that some tea of that type id is returned, and the model picks the first in ascending id order.
- A NULL `teaType` is not modelled. The data layer always inserts a type id.
- `ON UPDATE CASCADE` is not modelled. No code path updates an id.
- Bootstrap.SeedTable: the seed reader (`Seed.SeedValues`) accepts only the statement shape the code builds, `('…'), ('…');`, and reads anything else as a syntax error that ends start-up. SQLite runs some of those statements: a spliced name such as `a'||'b` is a string expression that inserts the one row "ab", and a name that closes the statement can add another statement. For such names the model exits where SQLite goes on. SQLite's parse-error text is simplified to "syntax error".
- The per-file `createXTable` methods, which return wrapped errors instead of exiting, are not modelled. Start-up is modelled from the `database.go` versions, because the constructor of the per-entity handle is not part of this model. Also not modelled is the `fmt.Errorf` without `%w` in api/internal/database/teatype.go:33, which drops its error.
- `api/database.go` is an older copy of the same logic in another package and is not part of this model.
- The HTTP handlers, the JWT middleware, bcrypt hashing, configuration parsing and the mobile app are not part of this model.

## Findings

| source | as written | input that shows it | evidently intended | confidence | as-written member | corrected member |
|---|---|---|---|---|---|---|
| api/internal/database/tea.go:55 | the lookup by tea id filters `WHERE tea.teaType=$1` with the tea's id, so it finds a tea whose TYPE id equals the given id, and then writes that tea's name and type under the caller's id (the same query is in api/internal/database/database.go:344) | types 1 "Black Tea" and 2 "Green Tea"; teas 1 "Snowball" (type 2) and 2 "Earl Grey" (type 1); asking for tea 1 returns "Earl Grey", type "Black Tea", under id 1 | filter on `tea.id=$1` | high, not executed | Teas.GetTea, Teas.GetTeaWrongTea | Teas.GetTeaById, Teas.GetTeaByIdListed |
| api/internal/database/database.go:72 | seed names are spliced between quotes without escaping (also database.go:111, teatype.go:27, owner.go:27) | the type name "Earl's" makes start-up exit with a syntax error; the owner name "a'), ('b" seeds two owners, "a" and "b" | double every quote inside the literal, or bind the names as parameters | high, not executed | Seed.QuotedSeedRejected, Seed.QuotedSeedSplits, Bootstrap.QuotedSeedExits, Bootstrap.InjectedSeedSplits | Seed.SeedInsertEscaped, Seed.SeedEscapedRoundTrip, Bootstrap.EscapedSeedsKept |
| api/internal/database/owner.go:89-96 | the owner delete closes the lookup's rows only through `defer`, so when the id exists they still hold a connection when the `DELETE` asks for one | a pool of one connection, as api/internal/database/database.go:46 sets for the global handle; a store with owner 1 "Alice"; deleting owner 1 never returns (on a larger pool the `DELETE` runs on another connection, which enforces foreign keys only if it ran the `PRAGMA` itself) | close the rows before the `DELETE`, as api/internal/database/database.go:315 does | medium, not executed: the per-entity handle's pool size is set by a constructor that is not part of this model | Owners.DeleteOwnerHoldingRows, Owners.DeleteOwnerWaits, Owners.DeleteOwnerDangles | Owners.DeleteOwner, Owners.DeleteThenGet |
