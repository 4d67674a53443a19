/**
  The database functions of `bot/db/db_func.py` over the modelled tables.
  Each function opens its own connection in autocommit mode and catches
  every database error: a failure is logged and the function returns its
  fallback value, with no statement of the call having taken effect. The
  connection's availability is the parameter `conn`.
 */
module Db {
  import opened Prelude
  import opened Calendar
  import opened Schema
  import opened Analysis

  /** Whether the database can be reached for the whole of one call. */
  datatype Conn = Up | Down

  /** One element of the list `get_all_reminders` returns: the dict `{id, text, datetime}`. */
  datatype Entry = Entry(id: nat, text: string, datetime: Timestamp)

  function EntryOf(x: Reminder): Entry {
    Entry(x.id, x.text, x.datetime)
  }

  function Entries(rows: seq<Reminder>): (es: seq<Entry>)
    ensures |es| == |rows|
    ensures forall i :: 0 <= i < |rows| ==> es[i] == EntryOf(rows[i])
  {
    seq(|rows|, i requires 0 <= i < |rows| => EntryOf(rows[i]))
  }

  /** The reminders of `owner` as `{id, text, datetime}` dicts, in store order: the reference listing. */
  function OwnedEntries(rows: seq<Reminder>, owner: int): seq<Entry> {
    Entries(Filter(rows, OwnedBy(owner)))
  }

  lemma EntriesAppend(a: seq<Reminder>, b: seq<Reminder>)
    ensures Entries(a + b) == Entries(a) + Entries(b)
  {
    assert forall i :: 0 <= i < |a + b| ==> Entries(a + b)[i] == (Entries(a) + Entries(b))[i];
  }

  // ---------------------------------------------------------------- users

  /** Whether `INSERT INTO main_users` accepts the pair under the table's constraints. */
  predicate Registrable(users: set<User>, tgId: int, username: Option<string>) {
    && InInt32(tgId)
    && (username.Some? ==> |username.value| <= UsernameLimit)
    && !IsUser(users, tgId)
    && (username.Some? ==> forall u :: u in users ==> u.username != username)
  }

  /**
    `get_user`: insert the sender into `main_users`. A duplicate `tg_id` or
    username, a `tg_id` outside `integer` or a username longer than 60
    characters makes the insert fail, and the failure is swallowed.
   */
  function GetUser(s: Store, conn: Conn, tgId: int, username: Option<string>): (r: Store)
    ensures r.rows == s.rows && r.nextId == s.nextId && r.jobs == s.jobs
    ensures conn.Up? && Registrable(s.users, tgId, username) ==> r.users == s.users + {User(tgId, username)}
    ensures !(conn.Up? && Registrable(s.users, tgId, username)) ==> r == s
    ensures Valid(s) ==> Valid(r)
  {
    if conn.Down? || !InInt32(tgId) then s
    else if username.Some? && |username.value| > UsernameLimit then s
    else if exists u :: u in s.users && (u.tgId == tgId || (username.Some? && u.username == username)) then s
    else
      var r := s.(users := s.users + {User(tgId, username)});
      assert Valid(s) ==> forall x :: x in r.rows ==> IsUser(r.users, x.owner) by {
        if Valid(s) {
          forall x | x in r.rows ensures IsUser(r.users, x.owner) {
            var u :| u in s.users && u.tgId == x.owner;
            assert u in r.users;
          }
        }
      }
      r
  }

  /** A second `/start` changes nothing, and after a successful one the sender is registered. */
  lemma GetUserIdempotent(s: Store, conn: Conn, tgId: int, username: Option<string>)
    ensures GetUser(GetUser(s, conn, tgId, username), conn, tgId, username) == GetUser(s, conn, tgId, username)
    ensures conn.Up? && Registrable(s.users, tgId, username) ==> IsUser(GetUser(s, conn, tgId, username).users, tgId)
  {
    var r := GetUser(s, conn, tgId, username);
    if conn.Up? && Registrable(s.users, tgId, username) {
      assert User(tgId, username) in r.users;
      assert !Registrable(r.users, tgId, username);
    }
  }

  // ------------------------------------------------------------ reminders

  /**
    `INSERT INTO main_schedule (text, datetime, fk_user_id)`. The `id serial`
    default draws the next sequence value before the foreign key is checked,
    so an insert for an unregistered owner fails yet uses up an id; an owner
    outside `integer` is rejected before a value is drawn, and an exhausted
    sequence rejects the insert without advancing.
   */
  function InsertReminder(s: Store, conn: Conn, text: string, date: Timestamp, owner: int): (r: Store)
    ensures r.users == s.users && r.jobs == s.jobs
    ensures r.rows == s.rows || r.rows == s.rows + [Reminder(s.nextId, text, date, owner)]
    ensures r.rows != s.rows <==> conn.Up? && InInt32(owner) && s.nextId <= Int32Max && IsUser(s.users, owner)
    ensures r.nextId == s.nextId + 1 <==> conn.Up? && InInt32(owner) && s.nextId <= Int32Max
    ensures r.nextId == s.nextId || r.nextId == s.nextId + 1
    ensures Valid(s) ==> Valid(r)
  {
    if conn.Down? || !InInt32(owner) || s.nextId > Int32Max then s
    else if !IsUser(s.users, owner) then s.(nextId := s.nextId + 1)
    else
      var x := Reminder(s.nextId, text, date, owner);
      var r := s.(rows := s.rows + [x], nextId := s.nextId + 1);
      assert Valid(s) ==> IdsIncreasing(r.rows) by {
        if Valid(s) {
          forall i, j | 0 <= i < j < |r.rows| ensures r.rows[i].id < r.rows[j].id {
            assert r.rows[i] == s.rows[i] && s.rows[i] in s.rows;
            if j < |s.rows| { assert r.rows[j] == s.rows[j]; }
          }
        }
      }
      r
  }

  /**
    `set_info_remind`: analyse the message again and insert the body and the
    first candidate's time for the sender; an analysis error is swallowed
    like a database error.
   */
  function SetInfoRemind(s: Store, conn: Conn, owner: int, ex: Extraction): (r: Store)
    ensures r.users == s.users && r.jobs == s.jobs
    ensures AnalyzeDb(ex).Failure? ==> r == s
    ensures r.rows != s.rows <==> AnalyzeDb(ex).Success? && conn.Up? && InInt32(owner) && s.nextId <= Int32Max && IsUser(s.users, owner)
    ensures r.rows != s.rows ==> r.rows == s.rows + [Reminder(s.nextId, AnalyzeDb(ex).value.text, AnalyzeDb(ex).value.fireAt, owner)]
    ensures r.nextId == s.nextId || r.nextId == s.nextId + 1
    ensures r.nextId == s.nextId + 1 <==> AnalyzeDb(ex).Success? && conn.Up? && InInt32(owner) && s.nextId <= Int32Max
    ensures Valid(s) ==> Valid(r)
  {
    match AnalyzeDb(ex)
    case Failure(_) => s
    case Success(a) => InsertReminder(s, conn, a.text, a.fireAt, owner)
  }

  /** Ids drawn by the sequence are never reused, even after a failed insert. */
  lemma InsertAdvancesSequence(s: Store, conn: Conn, text: string, date: Timestamp, owner: int)
    requires Valid(s)
    ensures var r := InsertReminder(s, conn, text, date, owner);
      forall x :: x in r.rows && x !in s.rows ==> x.id == s.nextId && r.nextId > x.id
  {
  }

  // -------------------------------------------------------------- listing

  /**
    `get_all_reminders`: the sender's reminders as `{id, text, datetime}`
    dicts, in store order (the `SELECT` has no `ORDER BY`); `[]` when the
    query fails.
   */
  function GetAllReminders(s: Store, conn: Conn, owner: int): (r: seq<Entry>)
    ensures conn.Down? ==> r == []
    ensures Valid(s) ==> forall i, j :: 0 <= i < j < |r| ==> r[i].id < r[j].id
  {
    if conn.Down? then []
    else
      ListingIncreasing(s, owner);
      OwnedEntries(s.rows, owner)
  }

  lemma ListingIncreasing(s: Store, owner: int)
    ensures Valid(s) ==> IdsIncreasing(Filter(s.rows, OwnedBy(owner)))
  {
    if Valid(s) {
      FilterIncreasing(s.rows, OwnedBy(owner));
    }
  }

  /** An entry is listed exactly when the sender owns a row it was read from. */
  lemma GetAllRemindersMembers(s: Store, conn: Conn, owner: int)
    requires conn.Up?
    ensures var r := GetAllReminders(s, conn, owner);
      forall e :: e in r <==> exists x :: x in s.rows && x.owner == owner && e == EntryOf(x)
  {
    var f := Filter(s.rows, OwnedBy(owner));
    var r := Entries(f);
    forall e ensures e in r <==> exists x :: x in f && e == EntryOf(x) {
      if e in r {
        var i :| 0 <= i < |r| && r[i] == e;
        assert f[i] in f;
      }
      if exists x :: x in f && e == EntryOf(x) {
        var x :| x in f && e == EntryOf(x);
        var i :| 0 <= i < |f| && f[i] == x;
        assert r[i] == e;
      }
    }
  }

  /** The list comprehension `get_all_reminders` runs over the fetched rows. */
  method CollectReminders(rows: seq<Reminder>, owner: int) returns (es: seq<Entry>)
    ensures es == OwnedEntries(rows, owner)
  {
    es := [];
    var i := 0;
    while i < |rows|
      invariant 0 <= i <= |rows|
      invariant es == OwnedEntries(rows[..i], owner)
    {
      assert rows[..i + 1] == rows[..i] + [rows[i]];
      FilterAppend(rows[..i], [rows[i]], OwnedBy(owner));
      EntriesAppend(Filter(rows[..i], OwnedBy(owner)), Filter([rows[i]], OwnedBy(owner)));
      if rows[i].owner == owner {
        es := es + [EntryOf(rows[i])];
      }
      i := i + 1;
    }
    assert rows[..i] == rows;
  }

  /** The function agrees with the reference listing whenever the database answers. */
  lemma GetAllRemindersIsOwnedEntries(s: Store, owner: int)
    ensures GetAllReminders(s, Up, owner) == OwnedEntries(s.rows, owner)
  {
  }

  function Texts(rows: seq<Reminder>): (ts: seq<string>)
    ensures |ts| == |rows|
  {
    seq(|rows|, i requires 0 <= i < |rows| => rows[i].text)
  }

  /** `get_all_remind`: the texts of the sender's reminders; `[]` when the query fails. */
  function GetAllRemind(s: Store, conn: Conn, owner: int): (r: seq<string>)
    ensures |r| == |GetAllReminders(s, conn, owner)|
    ensures forall i :: 0 <= i < |r| ==> r[i] == GetAllReminders(s, conn, owner)[i].text
  {
    if conn.Down? then [] else Texts(Filter(s.rows, OwnedBy(owner)))
  }

  // ------------------------------------------------------------- deletion

  /** The result of `delete_reminder`, with the message it returns. */
  datatype DeleteOutcome = Deleted | DeleteNotFound | DeleteFailed {
    function Message(): string {
      match this
      case Deleted => "Напоминание успешно удалено."
      case DeleteNotFound => "Напоминание не найдено или вы не имеете права его удалять."
      case DeleteFailed => "Произошла ошибка при удалении напоминания."
    }
  }

  /** `WHERE id = ... AND fk_user_id = ...`. */
  predicate Matches(x: Reminder, id: int, owner: int) {
    x.id == id && x.owner == owner
  }

  function Unmatched(id: int, owner: int): Reminder -> bool {
    (x: Reminder) => !Matches(x, id, owner)
  }

  /**
    `delete_reminder`: delete the reminder with this id if the sender owns
    it; the outcome tells by the affected row count whether one was found.
   */
  function DeleteReminder(s: Store, conn: Conn, id: int, owner: int): (r: (Store, DeleteOutcome))
    ensures r.0.users == s.users && r.0.nextId == s.nextId && r.0.jobs == s.jobs
    ensures conn.Down? ==> r == (s, DeleteFailed)
    ensures conn.Up? ==> (r.1 == Deleted <==> exists x :: x in s.rows && Matches(x, id, owner))
    ensures conn.Up? ==> r.1 != DeleteFailed
    ensures r.1 != Deleted ==> r.0 == s
    ensures r.1 == Deleted ==> forall x :: x in r.0.rows <==> x in s.rows && !Matches(x, id, owner)
    ensures Valid(s) ==> Valid(r.0)
  {
    if conn.Down? then (s, DeleteFailed)
    else
      var rows := Filter(s.rows, Unmatched(id, owner));
      FilterLength(s.rows, Unmatched(id, owner));
      if |rows| < |s.rows| then
        if Valid(s) then
          FilterIncreasing(s.rows, Unmatched(id, owner));
          (s.(rows := rows), Deleted)
        else (s.(rows := rows), Deleted)
      else (s, DeleteNotFound)
  }

  /** With serial ids, deleting the id of row `i` removes exactly that row. */
  lemma DeleteRemovesRow(s: Store, i: nat, owner: int)
    requires Valid(s) && i < |s.rows| && s.rows[i].owner == owner
    ensures DeleteReminder(s, Up, s.rows[i].id, owner) == (s.(rows := s.rows[..i] + s.rows[i + 1..]), Deleted)
  {
    var id := s.rows[i].id;
    assert s.rows[i] in s.rows;
    FilterWithoutRow(s.rows, i);
  }

  lemma FilterWithoutRow(rows: seq<Reminder>, i: nat)
    requires IdsIncreasing(rows) && i < |rows|
    ensures Filter(rows, Unmatched(rows[i].id, rows[i].owner)) == rows[..i] + rows[i + 1..]
  {
    var keep := Unmatched(rows[i].id, rows[i].owner);
    FilterSkipRow(rows, i, keep);
    forall k | 0 <= k < |rows| && k != i ensures keep(rows[k]) {
      if k < i { assert rows[k].id < rows[i].id; } else { assert rows[i].id < rows[k].id; }
    }
    KeepAllBelow(rows, i, keep);
  }

  /** A row `keep` rejects splits the selection into what comes before it and what comes after it. */
  lemma FilterSkipRow(rows: seq<Reminder>, i: nat, keep: Reminder -> bool)
    requires i < |rows| && !keep(rows[i])
    ensures Filter(rows, keep) == Filter(rows[..i], keep) + Filter(rows[i + 1..], keep)
  {
    var a, b := rows[..i], rows[i + 1..];
    var tail := [rows[i]] + b;
    assert rows == a + tail;
    FilterAppend(a, tail, keep);
    FilterSkipHead(rows[i], b, keep);
  }

  lemma FilterSkipHead(x: Reminder, rows: seq<Reminder>, keep: Reminder -> bool)
    requires !keep(x)
    ensures Filter([x] + rows, keep) == Filter(rows, keep)
  {
    assert ([x] + rows)[1..] == rows;
  }

  lemma KeepAllBelow(rows: seq<Reminder>, i: nat, keep: Reminder -> bool)
    requires i < |rows|
    requires forall k :: 0 <= k < |rows| && k != i ==> keep(rows[k])
    ensures Filter(rows[..i], keep) == rows[..i]
    ensures Filter(rows[i + 1..], keep) == rows[i + 1..]
  {
    var a, b := rows[..i], rows[i + 1..];
    assert forall x :: x in a ==> keep(x);
    assert forall k :: 0 <= k < |b| ==> b[k] == rows[i + 1 + k];
    assert forall x :: x in b ==> keep(x);
    FilterKeepsAll(a, keep);
    FilterKeepsAll(b, keep);
  }

  // --------------------------------------------------------------- update

  /** The result of `update_reminder`, with the message it returns. */
  datatype UpdateOutcome = Updated | UpdateNotFound | UpdateFailed {
    function Message(): string {
      match this
      case Updated => "Напоминание успешно обновлено!"
      case UpdateNotFound => "Не удалось обновить напоминание. Пожалуйста, проверьте ID."
      case UpdateFailed => "Произошла ошибка при обновлении напоминания."
    }
  }

  /** `UPDATE main_schedule SET text = ..., datetime = ... WHERE id = ... AND fk_user_id = ...` on the table. */
  function UpdateRows(rows: seq<Reminder>, id: int, owner: int, text: string, date: Timestamp): (r: seq<Reminder>)
    ensures |r| == |rows|
    ensures forall i :: 0 <= i < |rows| ==>
      && r[i].id == rows[i].id && r[i].owner == rows[i].owner
      && (Matches(rows[i], id, owner) ==> r[i].text == text && r[i].datetime == date)
      && (!Matches(rows[i], id, owner) ==> r[i] == rows[i])
    decreases |rows|
  {
    if rows == [] then []
    else
      var x := rows[0];
      [if Matches(x, id, owner) then x.(text := text, datetime := date) else x] + UpdateRows(rows[1..], id, owner, text, date)
  }

  /**
    `update_reminder`: replace text and datetime of the reminder with this
    id if the sender owns it; the outcome tells by the affected row count
    whether one was found.
   */
  function UpdateReminder(s: Store, conn: Conn, id: int, text: string, date: Timestamp, owner: int): (r: (Store, UpdateOutcome))
    ensures r.0.users == s.users && r.0.nextId == s.nextId && r.0.jobs == s.jobs
    ensures conn.Down? ==> r == (s, UpdateFailed)
    ensures conn.Up? ==> (r.1 == Updated <==> exists x :: x in s.rows && Matches(x, id, owner))
    ensures conn.Up? ==> r.1 != UpdateFailed
    ensures r.1 != Updated ==> r.0 == s
    ensures |r.0.rows| == |s.rows|
    ensures forall i :: 0 <= i < |s.rows| ==>
      && r.0.rows[i].id == s.rows[i].id && r.0.rows[i].owner == s.rows[i].owner
      && (Matches(s.rows[i], id, owner) && conn.Up? ==> r.0.rows[i].text == text && r.0.rows[i].datetime == date)
      && (!Matches(s.rows[i], id, owner) ==> r.0.rows[i] == s.rows[i])
    ensures Valid(s) ==> Valid(r.0)
  {
    if conn.Down? then (s, UpdateFailed)
    else
      var rows := UpdateRows(s.rows, id, owner, text, date);
      if exists x :: x in s.rows && Matches(x, id, owner) then
        if Valid(s) then
          UpdateKeepsValid(s, id, owner, text, date);
          (s.(rows := rows), Updated)
        else (s.(rows := rows), Updated)
      else
        UpdateRowsUnmatched(s.rows, id, owner, text, date);
        (s, UpdateNotFound)
  }

  lemma UpdateKeepsValid(s: Store, id: int, owner: int, text: string, date: Timestamp)
    requires Valid(s)
    ensures Valid(s.(rows := UpdateRows(s.rows, id, owner, text, date)))
  {
    var rows := UpdateRows(s.rows, id, owner, text, date);
    forall x | x in rows ensures 1 <= x.id < s.nextId && IsUser(s.users, x.owner) {
      var k :| 0 <= k < |rows| && rows[k] == x;
      assert s.rows[k] in s.rows;
    }
  }

  /** Updating leaves the owner of every row alone, so it commutes with selecting one owner's rows. */
  lemma {:induction false} FilterUpdateRows(rows: seq<Reminder>, id: int, owner: int, text: string, date: Timestamp, who: int)
    ensures Filter(UpdateRows(rows, id, owner, text, date), OwnedBy(who)) == UpdateRows(Filter(rows, OwnedBy(who)), id, owner, text, date)
    decreases |rows|
  {
    if rows != [] {
      var u := UpdateRows(rows, id, owner, text, date);
      assert u[1..] == UpdateRows(rows[1..], id, owner, text, date);
      FilterUpdateRows(rows[1..], id, owner, text, date, who);
      var f := Filter(rows[1..], OwnedBy(who));
      if rows[0].owner == who {
        assert Filter(rows, OwnedBy(who)) == [rows[0]] + f;
        assert ([rows[0]] + f)[1..] == f;
      }
    }
  }

  /** An update that matches no row changes nothing. */
  lemma {:induction false} UpdateRowsUnmatched(rows: seq<Reminder>, id: int, owner: int, text: string, date: Timestamp)
    requires forall x :: x in rows ==> !Matches(x, id, owner)
    ensures UpdateRows(rows, id, owner, text, date) == rows
  {
    var u := UpdateRows(rows, id, owner, text, date);
    forall i | 0 <= i < |rows| ensures u[i] == rows[i] {
      assert rows[i] in rows;
    }
  }

  /** Other users' listings are untouched by an update. */
  lemma UpdateIsolated(s: Store, conn: Conn, id: int, text: string, date: Timestamp, owner: int, other: int)
    requires other != owner
    ensures OwnedEntries(UpdateReminder(s, conn, id, text, date, owner).0.rows, other) == OwnedEntries(s.rows, other)
  {
    if conn.Up? && UpdateReminder(s, conn, id, text, date, owner).1 == Updated {
      FilterUpdateRows(s.rows, id, owner, text, date, other);
      UpdateRowsUnmatched(Filter(s.rows, OwnedBy(other)), id, owner, text, date);
    }
  }

  /** Other users' listings are untouched by a deletion. */
  lemma DeleteIsolated(s: Store, conn: Conn, id: int, owner: int, other: int)
    requires other != owner
    ensures OwnedEntries(DeleteReminder(s, conn, id, owner).0.rows, other) == OwnedEntries(s.rows, other)
  {
    if conn.Up? && DeleteReminder(s, conn, id, owner).1 == Deleted {
      FilterFilter(s.rows, Unmatched(id, owner), OwnedBy(other));
      FilterExt(s.rows, Both(Unmatched(id, owner), OwnedBy(other)), OwnedBy(other));
    }
  }

  /** Deleting the id shown at listing position `k` removes exactly that entry from the owner's listing. */
  lemma DeleteListed(s: Store, owner: int, k: nat)
    requires Valid(s) && k < |OwnedEntries(s.rows, owner)|
    ensures var es := OwnedEntries(s.rows, owner);
      var r := DeleteReminder(s, Up, es[k].id, owner);
      r.1 == Deleted && OwnedEntries(r.0.rows, owner) == es[..k] + es[k + 1..]
  {
    var f := Filter(s.rows, OwnedBy(owner));
    var i := ListedRow(s.rows, owner, k);
    DeleteRemovesRow(s, i, owner);
    EntriesRemoveAt(f, k);
  }

  /** The row behind listing position `k`, and the filtered listing once that row is gone. */
  lemma ListedRow(rows: seq<Reminder>, owner: int, k: nat) returns (i: nat)
    requires IdsIncreasing(rows) && k < |Filter(rows, OwnedBy(owner))|
    ensures i < |rows| && rows[i] == Filter(rows, OwnedBy(owner))[k] && rows[i].owner == owner
    ensures Filter(rows[..i] + rows[i + 1..], OwnedBy(owner)) == Filter(rows, OwnedBy(owner))[..k] + Filter(rows, OwnedBy(owner))[k + 1..]
  {
    var f := Filter(rows, OwnedBy(owner));
    assert f[k] in f;
    i :| 0 <= i < |rows| && rows[i] == f[k];
    FilterRemoveAt(rows, i, OwnedBy(owner));
    FilterIncreasing(rows, OwnedBy(owner));
    var k' := |Filter(rows[..i], OwnedBy(owner))|;
    assert f[k'] == f[k];
  }

  lemma EntriesRemoveAt(f: seq<Reminder>, k: nat)
    requires k < |f|
    ensures Entries(f[..k] + f[k + 1..]) == Entries(f)[..k] + Entries(f)[k + 1..]
  {
    var g := f[..k] + f[k + 1..];
    var es := Entries(f);
    forall j | 0 <= j < |g| ensures Entries(g)[j] == (es[..k] + es[k + 1..])[j] {
      if j < k { assert g[j] == f[j]; } else { assert g[j] == f[j + 1]; }
    }
  }

  /** Updating the id shown at listing position `k` replaces exactly that entry of the owner's listing. */
  lemma UpdateListed(s: Store, owner: int, k: nat, text: string, date: Timestamp)
    requires Valid(s) && k < |OwnedEntries(s.rows, owner)|
    ensures var es := OwnedEntries(s.rows, owner);
      var r := UpdateReminder(s, Up, es[k].id, text, date, owner);
      r.1 == Updated && OwnedEntries(r.0.rows, owner) == es[k := Entry(es[k].id, text, date)]
  {
    var f := Filter(s.rows, OwnedBy(owner));
    assert f[k] in f;
    FilterUpdateRows(s.rows, f[k].id, owner, text, date, owner);
    FilterIncreasing(s.rows, OwnedBy(owner));
    UpdateAt(f, k, text, date);
  }

  /** `UpdateListed` and `UpdateIsolated` together, read through `get_all_reminders`. */
  lemma UpdateListedReminders(s: Store, owner: int, k: nat, text: string, date: Timestamp, other: int)
    requires Valid(s) && k < |GetAllReminders(s, Up, owner)| && other != owner
    ensures var list := GetAllReminders(s, Up, owner);
      var t := UpdateReminder(s, Up, list[k].id, text, date, owner).0;
      && GetAllReminders(t, Up, owner) == list[k := Entry(list[k].id, text, date)]
      && GetAllReminders(t, Up, other) == GetAllReminders(s, Up, other)
  {
    GetAllRemindersIsOwnedEntries(s, owner);
    GetAllRemindersIsOwnedEntries(s, other);
    var es := OwnedEntries(s.rows, owner);
    var t := UpdateReminder(s, Up, es[k].id, text, date, owner).0;
    UpdateListed(s, owner, k, text, date);
    UpdateIsolated(s, Up, es[k].id, text, date, owner, other);
    GetAllRemindersIsOwnedEntries(t, owner);
    GetAllRemindersIsOwnedEntries(t, other);
  }

  lemma UpdateAt(f: seq<Reminder>, k: nat, text: string, date: Timestamp)
    requires IdsIncreasing(f) && k < |f|
    ensures Entries(UpdateRows(f, f[k].id, f[k].owner, text, date)) == Entries(f)[k := Entry(f[k].id, text, date)]
  {
    var u := UpdateRows(f, f[k].id, f[k].owner, text, date);
    var es := Entries(f)[k := Entry(f[k].id, text, date)];
    forall j | 0 <= j < |u| ensures Entries(u)[j] == es[j] {
      if j == k {
        assert Matches(f[k], f[k].id, f[k].owner);
      } else {
        assert f[j].id != f[k].id by {
          if j < k { assert f[j].id < f[k].id; } else { assert f[k].id < f[j].id; }
        }
        assert u[j] == f[j];
      }
    }
    assert Entries(u) == es;
  }

  // ---------------------------------------------------------------- sweep

  function Expired(now: Timestamp): Reminder -> bool {
    (x: Reminder) => x.datetime < now
  }

  function Current(now: Timestamp): Reminder -> bool {
    (x: Reminder) => x.datetime >= now
  }

  function IdOutside(ids: set<int>): Reminder -> bool {
    (x: Reminder) => x.id !in ids
  }

  function IdsOf(rows: seq<Reminder>): set<int> {
    set x | x in rows :: x.id
  }

  /** Deleting one more id from the rows left so far. */
  lemma SweepStep(rows: seq<Reminder>, gone: set<int>, id: int)
    ensures Filter(Filter(rows, IdOutside(gone)), IdOutside({id})) == Filter(rows, IdOutside(gone + {id}))
  {
    FilterFilter(rows, IdOutside(gone), IdOutside({id}));
    FilterExt(rows, Both(IdOutside(gone), IdOutside({id})), IdOutside(gone + {id}));
  }

  /** With unique ids, deleting the ids of the expired rows deletes exactly the expired rows. */
  lemma SweepSelects(rows: seq<Reminder>, now: Timestamp)
    requires UniqueIds(rows)
    ensures Filter(rows, IdOutside(IdsOf(Filter(rows, Expired(now))))) == Filter(rows, Current(now))
  {
    var selected := Filter(rows, Expired(now));
    forall x | x in rows ensures IdOutside(IdsOf(selected))(x) == Current(now)(x) {
      if x.id in IdsOf(selected) {
        var y :| y in selected && y.id == x.id;
        var a :| 0 <= a < |rows| && rows[a] == x;
        var b :| 0 <= b < |rows| && rows[b] == y;
        assert a == b;
      }
    }
    FilterExt(rows, IdOutside(IdsOf(selected)), Current(now));
  }

  lemma IdsOfSnoc(rows: seq<Reminder>, i: nat)
    requires i < |rows|
    ensures IdsOf(rows[..i + 1]) == IdsOf(rows[..i]) + {rows[i].id}
  {
    assert rows[..i + 1] == rows[..i] + [rows[i]];
  }

  /** The `for row in expired_rows` loop: one `DELETE ... WHERE id = ...` per selected row. */
  method DeleteEach(rows: seq<Reminder>, selected: seq<Reminder>) returns (left: seq<Reminder>)
    ensures left == Filter(rows, IdOutside(IdsOf(selected)))
  {
    left := rows;
    var i := 0;
    FilterKeepsAll(rows, IdOutside({}));
    assert IdsOf(selected[..0]) == {};
    while i < |selected|
      invariant 0 <= i <= |selected|
      invariant left == Filter(rows, IdOutside(IdsOf(selected[..i])))
    {
      var id := selected[i].id;
      SweepStep(rows, IdsOf(selected[..i]), id);
      IdsOfSnoc(selected, i);
      left := Filter(left, IdOutside({id}));
      i := i + 1;
    }
    assert selected[..i] == selected;
  }

  /**
    One pass of the loop in `delete_expired_rows`: select every row whose
    datetime lies before `now`, then delete each selected row by id, one
    statement at a time. Returns the number of rows selected.
   */
  method SweepTick(s: Store, conn: Conn, now: Timestamp) returns (r: Store, deleted: nat)
    requires UniqueIds(s.rows)
    ensures r.users == s.users && r.nextId == s.nextId && r.jobs == s.jobs
    ensures conn.Down? ==> r == s && deleted == 0
    ensures conn.Up? ==> forall x :: x in r.rows <==> x in s.rows && x.datetime >= now
    ensures conn.Up? ==> r.rows == Filter(s.rows, Current(now))
    ensures deleted == |s.rows| - |r.rows|
    ensures Valid(s) ==> Valid(r)
  {
    if conn.Down? {
      return s, 0;
    }
    var selected := Filter(s.rows, Expired(now));
    var rows := DeleteEach(s.rows, selected);
    SweepSelects(s.rows, now);
    FilterPartition(s.rows, Current(now), Expired(now));
    r := s.(rows := rows);
    deleted := |selected|;
    if Valid(s) {
      FilterIncreasing(s.rows, Current(now));
    }
  }

  /** A second pass at the same instant finds nothing left to delete. */
  lemma SweepIdempotent(rows: seq<Reminder>, now: Timestamp)
    ensures Filter(Filter(rows, Current(now)), Expired(now)) == []
    ensures Filter(Filter(rows, Current(now)), Current(now)) == Filter(rows, Current(now))
  {
    FilterKeepsNone(Filter(rows, Current(now)), Expired(now));
    FilterKeepsAll(Filter(rows, Current(now)), Current(now));
  }
}
