/**
  The two tables the bot keeps in PostgreSQL (`main_users`, `main_schedule`),
  the delivery queue kept by the job broker, and the constraints the table
  definitions declare, stated as one invariant of the whole store.
  Reminder rows are kept in insertion order, which is the order the model
  assumes for every `SELECT` without `ORDER BY`.
 */
module Schema {
  import opened Prelude
  import opened Calendar

  /** A row of `main_users`; `username` is `NULL` for a Telegram account without one. */
  datatype User = User(tgId: int, username: Option<string>)

  /** A row of `main_schedule`; `owner` is the column `fk_user_id`. */
  datatype Reminder = Reminder(id: nat, text: string, datetime: Timestamp, owner: int)

  /** A deferred `send_message(chat_id, text)` job, due at `deferUntil`. */
  datatype Job = Job(chatId: int, text: string, deferUntil: Timestamp)

  /**
    The whole persistent state: the user table, the reminder table in store
    order, the next value of the `id serial` sequence, and the job queue.
   */
  datatype Store = Store(users: set<User>, rows: seq<Reminder>, nextId: nat, jobs: seq<Job>)

  /** `tg_username varchar(60)`. */
  const UsernameLimit: nat := 60

  /** A freshly created database: no rows, and the sequence starts at 1. */
  const EmptyStore: Store := Store({}, [], 1, [])

  predicate IsUser(users: set<User>, tgId: int) {
    exists u :: u in users && u.tgId == tgId
  }

  /** `tg_id integer UNIQUE NOT NULL`, `tg_username varchar(60) UNIQUE` (several `NULL`s allowed). */
  predicate UsersValid(users: set<User>) {
    && (forall u :: u in users ==> InInt32(u.tgId) && (u.username.Some? ==> |u.username.value| <= UsernameLimit))
    && (forall u, v :: u in users && v in users && u.tgId == v.tgId ==> u == v)
    && (forall u, v :: u in users && v in users && u.username.Some? && u.username == v.username ==> u == v)
  }

  /** Rows appear in the order their serial ids were drawn. */
  predicate IdsIncreasing(rows: seq<Reminder>) {
    forall i, j :: 0 <= i < j < |rows| ==> rows[i].id < rows[j].id
  }

  /** `id serial PRIMARY KEY`. */
  predicate UniqueIds(rows: seq<Reminder>) {
    forall i, j :: 0 <= i < |rows| && 0 <= j < |rows| && i != j ==> rows[i].id != rows[j].id
  }

  /**
    The declared constraints: valid users; serial ids drawn from the sequence
    (so each is below its next value, which stays within `integer`); and
    `fk_user_id ... REFERENCES main_users (tg_id)`. `NOT NULL` on text and
    datetime holds by construction of `Reminder`.
   */
  predicate Valid(s: Store) {
    && UsersValid(s.users)
    && 1 <= s.nextId <= Int32Max + 1
    && IdsIncreasing(s.rows)
    && (forall x :: x in s.rows ==> 1 <= x.id < s.nextId && IsUser(s.users, x.owner))
  }

  /** The freshly created tables meet every declared constraint. */
  lemma EmptyStoreValid()
    ensures Valid(EmptyStore)
  {
  }

  lemma IncreasingIsUnique(rows: seq<Reminder>)
    requires IdsIncreasing(rows)
    ensures UniqueIds(rows)
  {
    forall i, j | 0 <= i < |rows| && 0 <= j < |rows| && i != j
      ensures rows[i].id != rows[j].id
    {
      if i < j { assert rows[i].id < rows[j].id; } else { assert rows[j].id < rows[i].id; }
    }
  }

  /** The rows satisfying `keep`, in store order. */
  function Filter(rows: seq<Reminder>, keep: Reminder -> bool): (r: seq<Reminder>)
    ensures |r| <= |rows|
    ensures forall x :: x in r <==> x in rows && keep(x)
  {
    if rows == [] then []
    else (if keep(rows[0]) then [rows[0]] else []) + Filter(rows[1..], keep)
  }

  function OwnedBy(owner: int): Reminder -> bool {
    (x: Reminder) => x.owner == owner
  }

  function NotOwnedBy(owner: int): Reminder -> bool {
    (x: Reminder) => x.owner != owner
  }

  lemma {:induction false} FilterAppend(a: seq<Reminder>, b: seq<Reminder>, keep: Reminder -> bool)
    ensures Filter(a + b, keep) == Filter(a, keep) + Filter(b, keep)
    decreases |a|
  {
    if a == [] {
      assert a + b == b;
    } else {
      assert (a + b)[0] == a[0];
      assert (a + b)[1..] == a[1..] + b;
      FilterAppend(a[1..], b, keep);
    }
  }

  /** Filtering keeps everything exactly when every row passes. */
  lemma {:induction false} FilterKeepsAll(rows: seq<Reminder>, keep: Reminder -> bool)
    ensures Filter(rows, keep) == rows <==> forall x :: x in rows ==> keep(x)
    decreases |rows|
  {
    if rows != [] {
      FilterKeepsAll(rows[1..], keep);
      assert rows == [rows[0]] + rows[1..];
      if !keep(rows[0]) {
        assert |Filter(rows, keep)| <= |rows[1..]| < |rows|;
      }
    }
  }

  /** Filtering keeps nothing when no row passes. */
  lemma {:induction false} FilterKeepsNone(rows: seq<Reminder>, keep: Reminder -> bool)
    requires forall x :: x in rows ==> !keep(x)
    ensures Filter(rows, keep) == []
    decreases |rows|
  {
    if rows != [] {
      assert rows[0] in rows;
      FilterKeepsNone(rows[1..], keep);
    }
  }

  /** Filtering keeps the length exactly when every row passes. */
  lemma {:induction false} FilterLength(rows: seq<Reminder>, keep: Reminder -> bool)
    ensures |Filter(rows, keep)| == |rows| <==> forall x :: x in rows ==> keep(x)
    decreases |rows|
  {
    if rows != [] {
      FilterLength(rows[1..], keep);
      assert rows == [rows[0]] + rows[1..];
    }
  }

  /** Two predicates that agree on the table select the same rows. */
  lemma {:induction false} FilterExt(rows: seq<Reminder>, p: Reminder -> bool, q: Reminder -> bool)
    requires forall x :: x in rows ==> p(x) == q(x)
    ensures Filter(rows, p) == Filter(rows, q)
    decreases |rows|
  {
    if rows != [] {
      assert rows[0] in rows;
      forall x | x in rows[1..] ensures p(x) == q(x) { assert x in rows; }
      FilterExt(rows[1..], p, q);
    }
  }

  function Both(p: Reminder -> bool, q: Reminder -> bool): Reminder -> bool {
    (x: Reminder) => p(x) && q(x)
  }

  lemma {:induction false} FilterFilter(rows: seq<Reminder>, p: Reminder -> bool, q: Reminder -> bool)
    ensures Filter(Filter(rows, p), q) == Filter(rows, Both(p, q))
    decreases |rows|
  {
    if rows != [] {
      var head := if p(rows[0]) then [rows[0]] else [];
      FilterAppend(head, Filter(rows[1..], p), q);
      FilterFilter(rows[1..], p, q);
      if p(rows[0]) {
        assert head[1..] == [];
      }
    }
  }

  /** The rows `keep` selects and the rows it rejects add up to the whole table. */
  lemma {:induction false} FilterPartition(rows: seq<Reminder>, keep: Reminder -> bool, reject: Reminder -> bool)
    requires forall x :: x in rows ==> keep(x) != reject(x)
    ensures |Filter(rows, keep)| + |Filter(rows, reject)| == |rows|
    decreases |rows|
  {
    if rows != [] {
      assert rows[0] in rows;
      forall x | x in rows[1..] ensures keep(x) != reject(x) { assert x in rows; }
      FilterPartition(rows[1..], keep, reject);
    }
  }

  /**
    Removing the row at index `i` removes from the selection exactly the
    element at the position given by the number of selected rows before `i`.
   */
  lemma FilterRemoveAt(rows: seq<Reminder>, i: nat, keep: Reminder -> bool)
    requires i < |rows| && keep(rows[i])
    ensures var k := |Filter(rows[..i], keep)|;
      && k < |Filter(rows, keep)|
      && Filter(rows, keep)[k] == rows[i]
      && Filter(rows[..i] + rows[i + 1..], keep) == Filter(rows, keep)[..k] + Filter(rows, keep)[k + 1..]
  {
    var a, b := rows[..i], rows[i + 1..];
    assert rows == a + ([rows[i]] + b);
    FilterAppend(a, [rows[i]] + b, keep);
    FilterAppend([rows[i]], b, keep);
    FilterAppend(a, b, keep);
    assert [rows[i]][1..] == [];
    var k := |Filter(a, keep)|;
    var f := Filter(rows, keep);
    assert f == Filter(a, keep) + [rows[i]] + Filter(b, keep);
    assert f[..k] == Filter(a, keep);
    assert f[k + 1..] == Filter(b, keep);
  }

  lemma IncreasingCons(x: Reminder, rows: seq<Reminder>)
    requires IdsIncreasing(rows)
    requires forall y :: y in rows ==> x.id < y.id
    ensures IdsIncreasing([x] + rows)
  {
    var r := [x] + rows;
    forall i, j | 0 <= i < j < |r| ensures r[i].id < r[j].id {
      assert r[j] == rows[j - 1];
      if i > 0 { assert r[i] == rows[i - 1]; }
    }
  }

  /** A filtered table keeps the serial order of its ids. */
  lemma {:induction false} FilterIncreasing(rows: seq<Reminder>, keep: Reminder -> bool)
    requires IdsIncreasing(rows)
    ensures IdsIncreasing(Filter(rows, keep))
    decreases |rows|
  {
    if rows != [] {
      var tail := rows[1..];
      assert IdsIncreasing(tail);
      FilterIncreasing(tail, keep);
      if keep(rows[0]) {
        forall y | y in Filter(tail, keep) ensures rows[0].id < y.id {
          var k :| 0 <= k < |tail| && tail[k] == y;
          assert rows[k + 1] == y;
        }
        IncreasingCons(rows[0], Filter(tail, keep));
      }
    }
  }

  /**
    `DELETE FROM main_users WHERE tg_id = ...`: the user goes, and
    `ON DELETE CASCADE` takes every reminder that user owns with it.
   */
  function DeleteUser(s: Store, tgId: int): (r: Store)
    ensures r.jobs == s.jobs && r.nextId == s.nextId
    ensures forall u :: u in r.users <==> u in s.users && u.tgId != tgId
    ensures forall x :: x in r.rows <==> x in s.rows && x.owner != tgId
    ensures Filter(s.rows, OwnedBy(tgId)) == [] ==> r.rows == s.rows
    ensures Valid(s) ==> Valid(r)
  {
    var users := set u | u in s.users && u.tgId != tgId;
    var rows := Filter(s.rows, NotOwnedBy(tgId));
    var r := Store(users, rows, s.nextId, s.jobs);
    if Filter(s.rows, OwnedBy(tgId)) == [] then
      FilterKeepsAll(s.rows, NotOwnedBy(tgId));
      r
    else if Valid(s) then
      FilterIncreasing(s.rows, NotOwnedBy(tgId));
      assert forall x :: x in rows ==> IsUser(users, x.owner) by {
        forall x | x in rows ensures IsUser(users, x.owner) {
          var u :| u in s.users && u.tgId == x.owner;
          assert u in users;
        }
      }
      r
    else r
  }

  /** After the cascade, the deleted user owns no reminder, and every other user's reminders are untouched. */
  lemma {:induction false} DeleteUserCascade(s: Store, tgId: int, other: int)
    requires other != tgId
    ensures Filter(DeleteUser(s, tgId).rows, OwnedBy(tgId)) == []
    ensures Filter(DeleteUser(s, tgId).rows, OwnedBy(other)) == Filter(s.rows, OwnedBy(other))
  {
    FilterOfFilter(s.rows, tgId, other);
    FilterKeepsNone(DeleteUser(s, tgId).rows, OwnedBy(tgId));
  }

  lemma {:induction false} FilterOfFilter(rows: seq<Reminder>, gone: int, other: int)
    requires other != gone
    ensures Filter(Filter(rows, NotOwnedBy(gone)), OwnedBy(other)) == Filter(rows, OwnedBy(other))
    decreases |rows|
  {
    if rows != [] {
      FilterOfFilter(rows[1..], gone, other);
      var head := if NotOwnedBy(gone)(rows[0]) then [rows[0]] else [];
      FilterAppend(head, Filter(rows[1..], NotOwnedBy(gone)), OwnedBy(other));
      if !NotOwnedBy(gone)(rows[0]) {
        assert Filter(head, OwnedBy(other)) == [];
      } else {
        assert head[1..] == [];
      }
    }
  }
}
