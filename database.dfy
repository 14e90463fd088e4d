/**
 * The SQLite-backed store of database.js: a `users` table, an `entries` table
 * holding at most one journal entry per user and calendar day, the startup
 * migration that brings `entries` to the per-user shape, and the queries and
 * statements the server uses.
 *
 * Tables are sequences of rows in rowid order. `CURRENT_TIMESTAMP` is the
 * `now` argument of the statement that reads it, and the AUTOINCREMENT
 * counters are the `nextEntryId` and `nextUserId` fields.
 */
module Database {
  import opened Wrappers
  import opened Collation

  /** A row of the per-user `entries` table. */
  datatype Entry = Entry(
    id: nat,
    userId: nat,
    date: string,
    gratitude: string,
    feeling: string,
    onMind: string,
    createdAt: int,
    updatedAt: int)

  /** A row of an `entries` table from before entries had owners: no `user_id` column. */
  datatype LegacyEntry = LegacyEntry(
    id: nat,
    date: string,
    gratitude: string,
    feeling: string,
    onMind: string,
    createdAt: int,
    updatedAt: int)

  /** A row of the `users` table. */
  datatype User = User(id: nat, username: string, passwordHash: string, createdAt: int)

  /** What `createUser` hands back: the new rowid and the username. */
  datatype NewUser = NewUser(id: nat, username: string)

  /** The constraint failures SQLite raises: a repeated UNIQUE key, a `user_id` with no `users` row. */
  datatype DbError = UniqueViolation | ForeignKeyViolation

  /**
   * The `entries` table as the migration sees it: missing, present without a
   * `user_id` column, or present in the per-user shape with UNIQUE(user_id, date).
   */
  datatype Table = Absent | NoOwner(legacy: seq<LegacyEntry>) | PerUser(rows: seq<Entry>)

  /**
   * The database file when the process starts: the `entries` table, an
   * `entries_new` table if one was left behind, the `users` table if it exists,
   * and the two AUTOINCREMENT counters.
   */
  datatype Disk = Disk(
    entries: Table,
    entriesNew: Option<seq<Entry>>,
    users: Option<seq<User>>,
    nextEntryId: nat,
    nextUserId: nat)

  /** Row `e` has the key (`user_id`, `date`) of the UNIQUE constraint. */
  predicate Keyed(e: Entry, userId: nat, date: string)
  {
    e.userId == userId && e.date == date
  }

  /** Some row has key (`userId`, `date`). */
  ghost predicate HasEntryOn(rows: seq<Entry>, userId: nat, date: string)
  {
    exists k :: 0 <= k < |rows| && Keyed(rows[k], userId, date)
  }

  /** UNIQUE(user_id, date): no two rows share a key. */
  ghost predicate UniqueKeys(rows: seq<Entry>)
  {
    forall i, j :: 0 <= i < j < |rows| ==> !Keyed(rows[j], rows[i].userId, rows[i].date)
  }

  /** The constraints SQLite keeps on an entries table whose counter is `nextId`. */
  ghost predicate RowsValid(rows: seq<Entry>, nextId: nat)
  {
    && (forall i :: 0 <= i < |rows| ==> rows[i].id < nextId)
    && (forall i, j :: 0 <= i < j < |rows| ==> rows[i].id != rows[j].id)
    && UniqueKeys(rows)
  }

  /** The constraints on `users`: AUTOINCREMENT ids from 1 below the counter, distinct ids, UNIQUE username. */
  ghost predicate UsersValid(users: seq<User>, nextId: nat)
  {
    && 1 <= nextId
    && (forall i :: 0 <= i < |users| ==> 1 <= users[i].id < nextId)
    && (forall i, j :: 0 <= i < j < |users| ==> users[i].id != users[j].id && users[i].username != users[j].username)
  }

  /** Some `users` row has id `id`: what `FOREIGN KEY (user_id) REFERENCES users(id)` asks of a new entry. */
  predicate IsUserId(users: seq<User>, id: nat)
  {
    exists i | 0 <= i < |users| :: users[i].id == id
  }

  ghost predicate DiskValid(d: Disk)
  {
    && (d.entries.PerUser? ==> RowsValid(d.entries.rows, d.nextEntryId))
    && (d.entriesNew.Some? ==> RowsValid(d.entriesNew.value, d.nextEntryId))
    && UsersValid(d.users.GetOr([]), d.nextUserId)
  }

  // ---------------------------------------------------------------------------
  // The startup migration

  /**
   * What the migration does to (`entries`, `entries_new`): a table that has a
   * `user_id` column is left alone; otherwise `entries_new` (created empty
   * unless it already exists) replaces whatever `entries` was.
   */
  function Migration(entries: Table, entriesNew: Option<seq<Entry>>): (r: (Table, Option<seq<Entry>>))
    ensures r.0.PerUser?
    ensures !entries.PerUser? ==> r.1.None?
  {
    if entries.PerUser? then (entries, entriesNew)
    else (PerUser(entriesNew.GetOr([])), None)
  }

  /** A table without `user_id` ends up per-user and empty: the old rows are gone, none given an owner. */
  lemma MigrationDiscardsOwnerless(entries: Table, entriesNew: Option<seq<Entry>>)
    requires !entries.PerUser?
    requires entriesNew.None? || entriesNew == Some([])
    ensures Migration(entries, entriesNew) == (PerUser([]), None)
  {
  }

  /** A table that already has `user_id` keeps all its rows, in order and unchanged. */
  lemma MigrationKeepsPerUser(rows: seq<Entry>, entriesNew: Option<seq<Entry>>)
    ensures Migration(PerUser(rows), entriesNew).0 == PerUser(rows)
  {
  }

  /** Running the migration a second time changes nothing. */
  lemma MigrationIdempotent(entries: Table, entriesNew: Option<seq<Entry>>)
    ensures var (t, n) := Migration(entries, entriesNew); Migration(t, n) == (t, n)
  {
  }

  // ---------------------------------------------------------------------------
  // Lookups

  /** `SELECT * FROM users WHERE username = ?`, `.get()`: the first matching row. */
  function FindUser(users: seq<User>, username: string): (r: Option<User>)
    ensures r.Some? ==> r.value in users && r.value.username == username
    ensures r.None? ==> forall i :: 0 <= i < |users| ==> users[i].username != username
  {
    if users == [] then None
    else if users[0].username == username then Some(users[0])
    else FindUser(users[1..], username)
  }

  /** An appended user is found by name when the name was not there before. */
  lemma {:induction false} FindUserAppended(users: seq<User>, u: User)
    requires FindUser(users, u.username).None?
    ensures FindUser(users + [u], u.username) == Some(u)
  {
    if users != [] {
      assert (users + [u])[1..] == users[1..] + [u];
      FindUserAppended(users[1..], u);
    }
  }

  /** Appending a user does not change what other names find. */
  lemma {:induction false} FindUserAppendedOther(users: seq<User>, u: User, name: string)
    requires name != u.username
    ensures FindUser(users + [u], name) == FindUser(users, name)
  {
    if users != [] {
      assert (users + [u])[1..] == users[1..] + [u];
      FindUserAppendedOther(users[1..], u, name);
    }
  }

  /** Position of the first row with key (`userId`, `date`), in rowid order. */
  function IndexOf(rows: seq<Entry>, userId: nat, date: string): (r: Option<nat>)
    ensures r.Some? ==> r.value < |rows| && Keyed(rows[r.value], userId, date)
    ensures r.Some? ==> forall k :: 0 <= k < r.value ==> !Keyed(rows[k], userId, date)
    ensures r.None? ==> forall k :: 0 <= k < |rows| ==> !Keyed(rows[k], userId, date)
  {
    if rows == [] then None
    else if Keyed(rows[0], userId, date) then Some(0)
    else match IndexOf(rows[1..], userId, date)
      case None => None
      case Some(i) => Some(i + 1)
  }

  /** `SELECT * FROM entries WHERE user_id = ? AND date = ?`, `.get()`. */
  function FindEntry(rows: seq<Entry>, userId: nat, date: string): (r: Option<Entry>)
    ensures r.Some? <==> HasEntryOn(rows, userId, date)
    ensures r.Some? ==> r.value in rows && Keyed(r.value, userId, date)
  {
    match IndexOf(rows, userId, date)
    case Some(i) => Some(rows[i])
    case None => None
  }

  /** Under UNIQUE(user_id, date) the row a lookup returns is the only row with its key. */
  lemma FindEntryIsTheRow(rows: seq<Entry>, k: nat)
    requires UniqueKeys(rows) && k < |rows|
    ensures FindEntry(rows, rows[k].userId, rows[k].date) == Some(rows[k])
  {
  }

  // ---------------------------------------------------------------------------
  // The upsert

  /**
   * The entries table after `INSERT ... ON CONFLICT(user_id, date) DO UPDATE`:
   * a new row when the key is free, otherwise the three text fields and
   * `updated_at` of the existing row are overwritten.
   */
  function Upserted(rows: seq<Entry>, nextId: nat, userId: nat, date: string,
                    gratitude: string, feeling: string, onMind: string, now: int): seq<Entry>
  {
    match IndexOf(rows, userId, date)
    case None => rows + [Entry(nextId, userId, date, gratitude, feeling, onMind, now, now)]
    case Some(i) => rows[i := rows[i].(gratitude := gratitude, feeling := feeling, onMind := onMind, updatedAt := now)]
  }

  /** The least the AUTOINCREMENT counter can be after the upsert: past the id of any inserted row. */
  function NextIdAfterUpsert(rows: seq<Entry>, nextId: nat, userId: nat, date: string): nat
  {
    if IndexOf(rows, userId, date).None? then nextId + 1 else nextId
  }

  /** A free key gets exactly one new row, with a fresh id and the given fields, appended after the old rows. */
  lemma UpsertInserts(rows: seq<Entry>, nextId: nat, userId: nat, date: string,
                      gratitude: string, feeling: string, onMind: string, now: int)
    requires RowsValid(rows, nextId)
    requires FindEntry(rows, userId, date).None?
    ensures var r := Upserted(rows, nextId, userId, date, gratitude, feeling, onMind, now);
      && |r| == |rows| + 1
      && r[..|rows|] == rows
      && r[|rows|] == Entry(nextId, userId, date, gratitude, feeling, onMind, now, now)
      && forall k :: 0 <= k < |rows| ==> rows[k].id != r[|rows|].id
  {
  }

  /**
   * A taken key keeps its row in place: only `gratitude`, `feeling`, `on_mind`
   * and `updated_at` change, and every other row is untouched.
   */
  lemma UpsertUpdates(rows: seq<Entry>, nextId: nat, userId: nat, date: string,
                      gratitude: string, feeling: string, onMind: string, now: int, k: nat)
    requires RowsValid(rows, nextId)
    requires k < |rows| && Keyed(rows[k], userId, date)
    ensures var r := Upserted(rows, nextId, userId, date, gratitude, feeling, onMind, now);
      && |r| == |rows|
      && r[k].id == rows[k].id && r[k].userId == userId && r[k].date == date
      && r[k].createdAt == rows[k].createdAt
      && r[k].gratitude == gratitude && r[k].feeling == feeling && r[k].onMind == onMind
      && r[k].updatedAt == now
      && forall j :: 0 <= j < |rows| && j != k ==> r[j] == rows[j]
  {
  }

  /** The upsert keeps the table's constraints: fresh ids below the counter and one row per (user, date). */
  lemma UpsertKeepsConstraints(rows: seq<Entry>, nextId: nat, userId: nat, date: string,
                               gratitude: string, feeling: string, onMind: string, now: int)
    requires RowsValid(rows, nextId)
    ensures RowsValid(Upserted(rows, nextId, userId, date, gratitude, feeling, onMind, now),
                      NextIdAfterUpsert(rows, nextId, userId, date))
  {
  }

  /**
   * After the upsert, looking the key up returns a row holding exactly the
   * given text (empty strings included), and every other key looks up as before.
   */
  lemma UpsertThenFind(rows: seq<Entry>, nextId: nat, userId: nat, date: string,
                       gratitude: string, feeling: string, onMind: string, now: int)
    requires RowsValid(rows, nextId)
    ensures var r := Upserted(rows, nextId, userId, date, gratitude, feeling, onMind, now);
      var e := FindEntry(r, userId, date);
      && e.Some?
      && e.value.gratitude == gratitude && e.value.feeling == feeling && e.value.onMind == onMind
      && e.value.updatedAt == now
      && (FindEntry(rows, userId, date).None? ==> e.value.id == nextId && e.value.createdAt == now)
      && (FindEntry(rows, userId, date).Some? ==>
            e.value.id == FindEntry(rows, userId, date).value.id
            && e.value.createdAt == FindEntry(rows, userId, date).value.createdAt)
    ensures forall u, d :: !(u == userId && d == date) ==>
      FindEntry(Upserted(rows, nextId, userId, date, gratitude, feeling, onMind, now), u, d) == FindEntry(rows, u, d)
  {
    var r := Upserted(rows, nextId, userId, date, gratitude, feeling, onMind, now);
    UpsertKeepsConstraints(rows, nextId, userId, date, gratitude, feeling, onMind, now);
    match IndexOf(rows, userId, date)
    case None =>
      FindEntryIsTheRow(r, |rows|);
      forall u, d | !(u == userId && d == date) ensures FindEntry(r, u, d) == FindEntry(rows, u, d) {
        LookupUnchanged(rows, r, u, d);
      }
    case Some(i) =>
      FindEntryIsTheRow(r, i);
      forall u, d | !(u == userId && d == date) ensures FindEntry(r, u, d) == FindEntry(rows, u, d) {
        LookupUnchanged(rows, r, u, d);
      }
  }

  /**
   * A lookup of key (u, d) gives the same answer on two tables that agree on
   * every row with that key and differ elsewhere only by rows with other keys.
   */
  lemma LookupUnchanged(rows: seq<Entry>, r: seq<Entry>, u: nat, d: string)
    requires |rows| <= |r|
    requires forall k :: 0 <= k < |rows| ==> (Keyed(rows[k], u, d) || Keyed(r[k], u, d)) ==> r[k] == rows[k]
    requires forall k :: |rows| <= k < |r| ==> !Keyed(r[k], u, d)
    ensures FindEntry(r, u, d) == FindEntry(rows, u, d)
  {
  }

  // ---------------------------------------------------------------------------
  // The date list

  /** The dates of `userId`'s rows, in rowid order. */
  function DatesOf(rows: seq<Entry>, userId: nat): (r: seq<string>)
    ensures forall d :: d in r <==> HasEntryOn(rows, userId, d)
  {
    if rows == [] then []
    else
      var rest := DatesOf(rows[1..], userId);
      assert forall d :: (exists k :: 1 <= k < |rows| && Keyed(rows[k], userId, d)) ==> d in rest by {
        forall d | exists k :: 1 <= k < |rows| && Keyed(rows[k], userId, d) ensures d in rest {
          var k :| 1 <= k < |rows| && Keyed(rows[k], userId, d);
          assert Keyed(rows[1..][k - 1], userId, d);
        }
      }
      if rows[0].userId == userId then [rows[0].date] + rest else rest
  }

  /** Under UNIQUE(user_id, date) a user's dates are all different. */
  lemma {:induction false} DatesOfDistinct(rows: seq<Entry>, userId: nat)
    requires UniqueKeys(rows)
    ensures Distinct(DatesOf(rows, userId))
  {
    if rows != [] {
      var rest := DatesOf(rows[1..], userId);
      assert UniqueKeys(rows[1..]) by {
        forall i, j | 0 <= i < j < |rows[1..]| ensures !Keyed(rows[1..][j], rows[1..][i].userId, rows[1..][i].date) {
          assert rows[1..][j] == rows[j + 1] && rows[1..][i] == rows[i + 1];
        }
      }
      DatesOfDistinct(rows[1..], userId);
      if rows[0].userId == userId {
        assert rows[0].date !in rest;
        var r := [rows[0].date] + rest;
        forall i, j | 0 <= i < j < |r| ensures r[i] != r[j] {
          if i == 0 {
            assert r[j] == rest[j - 1];
          } else {
            assert r[i] == rest[i - 1] && r[j] == rest[j - 1];
          }
        }
      }
    }
  }

  /**
   * `SELECT date FROM entries WHERE user_id = ? ORDER BY date DESC`: exactly
   * the user's dates, each once, newest first in BINARY order.
   */
  function EntryDates(rows: seq<Entry>, userId: nat): (r: seq<string>)
    requires UniqueKeys(rows)
    ensures StrictlyDescending(r) && Distinct(r)
    ensures forall d :: d in r <==> HasEntryOn(rows, userId, d)
  {
    DatesOfDistinct(rows, userId);
    var r := SortDescending(DatesOf(rows, userId));
    StrictlyDescendingIsDistinct(r);
    r
  }

  /**
   * The date list depends only on which dates the user has: the same rows in
   * any other order, or with other users' rows around them, give the same list.
   */
  lemma EntryDatesDependOnlyOnDates(rows: seq<Entry>, other: seq<Entry>, userId: nat)
    requires UniqueKeys(rows) && UniqueKeys(other)
    requires forall d :: HasEntryOn(rows, userId, d) <==> HasEntryOn(other, userId, d)
    ensures EntryDates(rows, userId) == EntryDates(other, userId)
  {
    var a, b := EntryDates(rows, userId), EntryDates(other, userId);
    DescendingUnique(a, b);
  }

  // ---------------------------------------------------------------------------
  // The store

  /** The open database handle with its two tables and the leftover `entries_new`, if any. */
  class Store {
    var entries: Table
    var entriesNew: Option<seq<Entry>>
    var users: seq<User>
    var nextEntryId: nat
    var nextUserId: nat

    ghost predicate Valid()
      reads this
    {
      DiskValid(Disk(entries, entriesNew, Some(users), nextEntryId, nextUserId))
    }

    /** Valid, and the migration has run: `entries` has the per-user shape. */
    ghost predicate Ready()
      reads this
    {
      Valid() && entries.PerUser?
    }

    /** Loading the module: open the file, create `users` if missing, then migrate `entries`. */
    constructor Open(disk: Disk)
      requires DiskValid(disk)
      ensures Ready()
      ensures (entries, entriesNew) == Migration(disk.entries, disk.entriesNew)
      ensures users == disk.users.GetOr([])
      ensures nextEntryId == disk.nextEntryId && nextUserId == disk.nextUserId
    {
      entries := disk.entries;
      entriesNew := disk.entriesNew;
      users := disk.users.GetOr([]);
      nextEntryId := disk.nextEntryId;
      nextUserId := disk.nextUserId;
      new;
      Migrate();
    }

    /**
     * The migration block: look only for a `user_id` column; without one,
     * create `entries_new`, drop `entries` if it exists and rename.
     */
    method Migrate()
      requires Valid()
      modifies this
      ensures Ready()
      ensures (entries, entriesNew) == Migration(old(entries), old(entriesNew))
      ensures users == old(users) && nextEntryId == old(nextEntryId) && nextUserId == old(nextUserId)
    {
      var hasUserId := entries.PerUser?;
      if !hasUserId {
        // CREATE TABLE IF NOT EXISTS entries_new
        if entriesNew.None? {
          entriesNew := Some([]);
        }
        // DROP TABLE entries, when there is one: its rows are lost
        var oldTableExists := !entries.Absent?;
        if oldTableExists {
          entries := Absent;
        }
        // ALTER TABLE entries_new RENAME TO entries
        entries, entriesNew := PerUser(entriesNew.value), None;
      }
      // otherwise CREATE TABLE IF NOT EXISTS entries finds the table and does nothing
    }

    function GetUserByUsername(username: string): (r: Option<User>)
      reads this
      ensures r.Some? <==> exists i :: 0 <= i < |users| && users[i].username == username
      ensures r.Some? ==> r.value in users && r.value.username == username
    {
      FindUser(users, username)
    }

    /** `INSERT INTO users`: a new row with the next id, or a UNIQUE failure on a taken username. */
    method CreateUser(username: string, passwordHash: string, now: int) returns (r: Result<NewUser, DbError>)
      requires Ready()
      modifies this
      ensures Ready()
      ensures r.Ok? <==> old(GetUserByUsername(username)).None?
      ensures r.Ok? ==>
        && r.value == NewUser(old(nextUserId), username)
        && (forall u :: u in old(users) ==> u.id != r.value.id)
        && users == old(users) + [User(r.value.id, username, passwordHash, now)]
        && nextUserId == old(nextUserId) + 1
        && GetUserByUsername(username) == Some(User(r.value.id, username, passwordHash, now))
      ensures r.Err? ==> r.error == UniqueViolation && users == old(users) && nextUserId == old(nextUserId)
      ensures forall name :: name != username ==> GetUserByUsername(name) == old(GetUserByUsername(name))
      ensures entries == old(entries) && entriesNew == old(entriesNew) && nextEntryId == old(nextEntryId)
    {
      if FindUser(users, username).Some? {
        return Err(UniqueViolation);
      }
      var user := User(nextUserId, username, passwordHash, now);
      FindUserAppended(users, user);
      forall name | name != username ensures FindUser(users + [user], name) == FindUser(users, name) {
        FindUserAppendedOther(users, user, name);
      }
      assert forall i :: 0 <= i < |users| ==> users[i].username != username;
      users := users + [user];
      nextUserId := nextUserId + 1;
      r := Ok(NewUser(user.id, username));
    }

    function GetEntry(userId: nat, date: string): (r: Option<Entry>)
      reads this
      requires Ready()
      ensures r.Some? <==> HasEntryOn(entries.rows, userId, date)
      ensures r.Some? ==> r.value in entries.rows && Keyed(r.value, userId, date)
    {
      FindEntry(entries.rows, userId, date)
    }

    /**
     * Insert or overwrite the (`userId`, `date`) entry, then read it back.
     * Inserting a row for a user id that no `users` row has breaks
     * `FOREIGN KEY (user_id) REFERENCES users(id)`: the statement fails and
     * nothing changes.
     */
    method UpsertEntry(userId: nat, date: string, gratitude: string, feeling: string, onMind: string, now: int)
      returns (r: Result<Entry, DbError>)
      requires Ready()
      modifies this
      ensures Ready()
      ensures r.Err? <==> old(GetEntry(userId, date)).None? && !IsUserId(users, userId)
      ensures r.Err? ==> r.error == ForeignKeyViolation && unchanged(this)
      ensures r.Ok? ==>
        && entries == PerUser(Upserted(old(entries.rows), old(nextEntryId), userId, date, gratitude, feeling, onMind, now))
        && nextEntryId >= NextIdAfterUpsert(old(entries.rows), old(nextEntryId), userId, date)
        && GetEntry(userId, date) == Some(r.value)
        && r.value.gratitude == gratitude && r.value.feeling == feeling && r.value.onMind == onMind
        && r.value.updatedAt == now
        && (forall u, d :: !(u == userId && d == date) ==> GetEntry(u, d) == old(GetEntry(u, d)))
      ensures r.Ok? && old(GetEntry(userId, date)).None? ==> r.value.id == old(nextEntryId) && r.value.createdAt == now
      ensures r.Ok? && old(GetEntry(userId, date)).Some? ==>
        r.value.id == old(GetEntry(userId, date)).value.id && r.value.createdAt == old(GetEntry(userId, date)).value.createdAt
      ensures users == old(users) && nextUserId == old(nextUserId) && entriesNew == old(entriesNew)
    {
      var rows := entries.rows;
      var existing := IndexOf(rows, userId, date);
      if existing.None? && !IsUserId(users, userId) {
        return Err(ForeignKeyViolation);
      }
      UpsertKeepsConstraints(rows, nextEntryId, userId, date, gratitude, feeling, onMind, now);
      UpsertThenFind(rows, nextEntryId, userId, date, gratitude, feeling, onMind, now);
      match existing {
        case None =>
          entries := PerUser(rows + [Entry(nextEntryId, userId, date, gratitude, feeling, onMind, now, now)]);
        case Some(i) =>
          entries := PerUser(rows[i := rows[i].(gratitude := gratitude, feeling := feeling, onMind := onMind, updatedAt := now)]);
      }
      // the rowid is drawn before the conflict check, so the counter moves on both paths
      nextEntryId := nextEntryId + 1;
      r := Ok(GetEntry(userId, date).value);
    }

    function GetAllEntryDates(userId: nat): (r: seq<string>)
      reads this
      requires Ready()
      ensures StrictlyDescending(r) && Distinct(r)
      ensures forall d :: d in r <==> GetEntry(userId, d).Some?
    {
      EntryDates(entries.rows, userId)
    }
  }
}
