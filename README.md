# Journal: store and request logic

A model of the core of a small personal journaling web application. Users
register and log in, and each user keeps at most one journal entry per calendar
day. An entry has three free-text fields: gratitude, feeling and "on mind".
The application has two core files:

- `database.js` opens an SQLite file and runs a startup migration. The
  migration brings the `entries` table to the per-user shape
  (`user_id`, `UNIQUE(user_id, date)`). The file then exports the user and
  entry statements: `createUser`, `getUserByUsername`, `getEntry`, `upsertEntry`
  and `getAllEntryDates`.
- `server.js` holds the HTTP handlers: the `requireAuth` session gate,
  `/register`, `/login`, `/logout`, `/auth-status`, and the `/api/entry` and
  `/api/entries` routes.

The project has four modules:

- `Wrappers` (wrappers.dfy): `Option` and `Result`.
- `Collation` (collation.dfy): SQLite's BINARY ordering of text. `Below` is a
  strict total order, proved by `BelowIrreflexive`, `BelowTransitive` and
  `BelowTotal`. `SortDescending` is an insertion sort that implements
  `ORDER BY ... DESC`.
- `Database` (database.dfy): the tables as values.
  - `Table = Absent | NoOwner(legacy rows) | PerUser(rows)` is the entries
    table as the migration classifies it. `entries_new` is an optional table.
  - The functions `Migration` and `Upserted` are the specifications of the
    migration and the upsert.
  - The class `Store` holds the tables as fields. Its methods `Migrate`,
    `CreateUser` and `UpsertEntry` change them in place and are proved against
    those specifications. The read-only queries are functions over the fields.
- `Server` (server.dfy): a `Session` object with `userId` and `username`.
  - The field checks and route decisions are pure functions.
  - `Register`, `Login` and `Logout` are methods that write the session and
    call the store.
  - An entry route that calls a store function `database.js` does not define
    is modelled up to that call. `EntryStep` records which call it makes, and
    the reply functions take the store's result as input.

The source's time, hashing and identifiers appear in the model as follows:

- `CURRENT_TIMESTAMP` is a `now` argument.
- The AUTOINCREMENT counters are the fields `nextEntryId` and `nextUserId`.
- `bcrypt.hash` is replaced by the hash string the caller passes in.
  `bcrypt.compare` is a function parameter `verify`.
- JSON body fields are `Option<string>`. A field is truthy when it is present
  and non-empty.
- `.length` counts UTF-16 code units (`Utf16Length`).

Three facts about the code shape the model:

- `entries` holds at most one entry per user and day. `UNIQUE(user_id, date)`
  (database.js:38, 64) enforces this, and `upsertEntry` relies on it.
- The migration has a single branch that changes data, and it is lossy. A
  table without `user_id` is replaced; rows are never copied across.
- `getAllEntryDates` returns the distinct dates without per-date counts.

## Model

| member | source | states |
|---|---|---|
| Database.Store.Open | database.js:10-68 | Loading the module creates `users` if it is missing and migrates `entries`. Afterwards the store is ready and its tables are `Migration` of the file's tables. |
| Database.Store.Migrate | database.js:22-68 | The create / drop / rename steps produce exactly `Migration(old entries, old entries_new)`. The result always has the per-user shape. Users and counters are untouched. |
| Database.Migration | database.js:23-68 | The result always has the per-user shape. When `user_id` was missing, no `entries_new` is left behind. |
| Database.MigrationDiscardsOwnerless | database.js:26-51 | An absent or ownerless `entries` table, with no leftover `entries_new` rows, becomes an empty per-user table. No old row survives or is given an owner. Leftover `entries_new` rows would survive the rename (database.js:29, 51). |
| Database.MigrationKeepsPerUser | database.js:52-67 | A table that already has `user_id` keeps every row, unchanged and in order. |
| Database.MigrationIdempotent | database.js:23-68 | A second migration run changes nothing. |
| Database.FindUser | database.js:77-79 | The lookup returns a row with that username, or none exactly when no row has it. |
| Database.FindUserAppended | database.js:71-79 | A user appended under a name that was free is what a lookup of that name returns. |
| Database.FindUserAppendedOther | database.js:71-79 | Appending a user leaves every other name's lookup unchanged. |
| Database.Store.GetUserByUsername | database.js:77-79 | Finds a row iff some user has that username, and returns such a row. |
| Database.Store.CreateUser | database.js:71-75 | A taken username fails with a UNIQUE violation and changes nothing. Otherwise one row is appended with a fresh id. That id and the username are returned, and the name now looks up to the new row. Other names and the entries table are untouched. |
| Database.IndexOf | database.js:82-84 | Gives the first row with key (user, date), or none iff no row has that key. |
| Database.FindEntry | database.js:82-84 | Finds a row iff one has key (user, date), and the row it returns has that key. |
| Database.FindEntryIsTheRow | database.js:82-84 | Under UNIQUE(user_id, date), a lookup returns the one row with its key. |
| Database.Store.GetEntry | database.js:82-84 | A lookup scoped by user and date: some iff that user has an entry on that date. |
| Database.UpsertInserts | database.js:86-96 | On a free key, exactly one row is appended. It has a fresh id, the given text and `created_at = updated_at = now`. Old rows are kept. |
| Database.UpsertUpdates | database.js:90-94 | On a taken key, the row stays in place. Only gratitude, feeling, on_mind and updated_at change. id, user_id, date and created_at are kept, and no other row changes. |
| Database.UpsertKeepsConstraints | database.js:86-96 | The upsert keeps ids distinct and below the counter. It keeps one row per (user_id, date). |
| Database.UpsertThenFind | database.js:86-97 | After the upsert, the key looks up to a row holding exactly the given text, empty strings included. It has the new id on insert, or the old id and created_at on update. Every other key looks up as before. |
| Database.Store.UpsertEntry | database.js:86-98 | A free key for a user id that no `users` row has fails on the FOREIGN KEY and changes nothing. Otherwise the new table is `Upserted` of the old one, and the counter ends past any inserted id. The returned entry is `getEntry(user, date)` and carries the given text. Other keys, users and `entries_new` are untouched. |
| Database.DatesOf | database.js:100-102 | Holds exactly the dates of the user's rows. |
| Database.DatesOfDistinct | database.js:100-102 | Under UNIQUE(user_id, date), a user's dates do not repeat. |
| Database.EntryDates | database.js:100-102 | Holds exactly the user's dates, each once, in strictly descending BINARY order. |
| Database.EntryDatesDependOnlyOnDates | database.js:100-102 | The list depends only on the set of the user's dates. Row order and other users' rows make no difference. |
| Database.Store.GetAllEntryDates | database.js:100-102 | Strictly descending and without duplicates. A date is listed iff the user has an entry on it. |
| Collation.BelowIrreflexive | database.js:101 | Under BINARY collation no text sorts before itself. |
| Collation.BelowTransitive | database.js:101 | BINARY order is transitive. |
| Collation.BelowTotal | database.js:101 | Of two different texts, exactly one sorts before the other. |
| Collation.DistinctNoLonger | database.js:101 | A list without repeats is no longer than any list holding all its elements, so sorting neither adds nor drops dates. |
| Collation.SortDescending | database.js:101 | `ORDER BY date DESC` on distinct dates: the same elements and length, strictly descending. |
| Collation.DescendingUnique | database.js:101 | Two strictly descending lists with the same elements are equal, so the order is fully determined. Equal length is derived, not assumed. |
| Server.Utf16Length | server.js:41-47 | The `.length` used by the checks is between one and two units per character. |
| Server.RequireAuth | server.js:25-31 | A request passes iff `session.userId` is truthy. Otherwise the answer is 401 "Not authenticated". |
| Server.AuthStatus | server.js:97-102 | Always 200. `authenticated` holds iff `requireAuth` would pass. `username` is the session's name when truthy, else null. |
| Server.RegisterFieldError | server.js:37-47 | The checks run in order. A missing field gives "Username and password required". Then a username under 3 units, then a password under 4. None exactly when all pass. |
| Server.Register | server.js:34-64 | Any failed field check gives 400 with its message. A taken name gives 400 "Username already taken". Only when all four checks pass is a user row appended and the user counter advanced by one. Then the session holds its id and name and the answer is 200. On every rejection the store and session are unchanged. The entries tables and their counter are never touched. |
| Server.Login | server.js:66-90 | Missing fields give 400. An unknown username and a wrong password both give the same 401 "Invalid username or password". Success sets the session to the user's id and name, which then passes `requireAuth`. A rejection leaves the session unchanged. |
| Server.Logout | server.js:92-95 | Clears the session, so `requireAuth` fails afterwards. Redirects to `/`. |
| Server.PostEntry | server.js:113-120 | An unauthenticated request gets 401. A falsy date gets 400 "Date is required" and no store call. Otherwise `createEntry` gets the user's id, the date, and each text field verbatim when present (even empty) or '' when missing. |
| Server.PutEntry | server.js:123-125 | An unauthenticated request gets 401. Otherwise `updateEntry` gets the user's id, the route id and the defaulted text fields. |
| Server.PutEntryReply | server.js:126-129 | 404 "Entry not found" iff the store returned no entry. Otherwise 200 with the entry. |
| Server.DeleteEntryRoute | server.js:133-134 | An unauthenticated request gets 401. Otherwise `deleteEntry` gets the user's id and the route id. |
| Server.DeleteEntryReply | server.js:135-138 | 404 "Entry not found" iff the store reports 0 changes. Otherwise 200 `{ success: true }`. |
| Server.ListDates | server.js:142-145 | An unauthenticated request gets 401. Otherwise 200 with the user's dates, strictly descending: a date is listed iff the user has an entry on it. The source sends each date inside a `{ date }` row object; the model lists the bare strings. |

## Left out

- The SQLite engine, the `PRAGMA table_info` and `sqlite_master` queries (replaced by the shape of `Table`), and creating the data directory with `fs` (database.js:1-10).
- An `entries` table that has `user_id` but not `UNIQUE(user_id, date)`. The model's per-user shape always carries the constraint. On such a table `upsertEntry`'s `ON CONFLICT(user_id, date)` would be an SQL error.
- AUTOINCREMENT bookkeeping across the drop and rename. The counter is carried over unchanged, which keeps ids fresh.
- Database.Store.UpsertEntry: promises only that the entry counter ends at or past the next free id, not its exact value. SQLite draws a rowid before the conflict check, so the counter can also advance when the row is updated.
- Database.Store.UpsertEntry: the invariant that every existing row's `user_id` names a `users` row is not kept. The FOREIGN KEY check is modelled only where the upsert inserts.
- `CURRENT_TIMESTAMP` values: the caller supplies `now`, so nothing says that `updated_at` grows over time.
- The `password_hash` computation and comparison: bcrypt is a caller-supplied hash and a `verify` parameter.
- express, express-session storage and cookies, dotenv, static files and `listen`.
- The 500 answers for storage or hashing failures (server.js:61-63, 87-89).
- Server.Register: treats a request as one atomic step. Node runs other requests while the handler awaits `bcrypt.hash` (server.js:49-55). Two registrations of the same free name can therefore both pass the lookup. One then gets 200, and the other's `createUser` hits the UNIQUE constraint and answers 500 "Registration failed". That interleaving and its 500 are not part of this model.
- Body fields that are JSON values other than strings (numbers, booleans, objects). Their truthiness and `.length` differ from strings.
- The `/api/entries` reply wraps each date in a `{ date }` object; the model returns the bare strings.
- `getEntriesByDate`, `createEntry`, `updateEntry` and `deleteEntry`, which server.js calls but database.js does not define. Their routes are modelled up to the call, and the GET `/api/entries/:date` route is not part of this model.
- public/app.js (the browser UI) is not part of this model.
