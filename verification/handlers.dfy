/**
  The message handlers of `bot/handlers/user_handlers.py`: a new reminder
  (`get_reminder_text`), the numbered listing (`list_reminder`), and
  deletion and editing by list position (`handle_delete_reminder`,
  `handle_edit_reminder`). What a handler sends or schedules is returned as
  a trace of effects in the order the handler performs them.
 */
module Handlers {
  import opened Prelude
  import opened Text
  import opened Calendar
  import opened Schema
  import opened Analysis
  import opened Db

  /**
    An effect outside the store: `message.answer`, `message.reply`,
    `redis_pool.enqueue_job("send_message", ...)`, and the call of
    `set_info_remind` that stores the reminder.
   */
  datatype Effect = Answer(text: string) | Reply(text: string) | Enqueue(job: Job) | Persist

  const Analysing: string := "Идёт анализ вашего напоминания..."
  const MinimumTime: string := "⚠ Минимальное время - 1 минута"
  const IncludeDate: string := "⚠ Введите напоминание еще раз, но, указав дату и время 🥷\n⚠ Минимальное время - 1 минута 🥷"
  const AnalysisFailed: string := "Произошла ошибка при анализе напоминания."
  const DeliveryPrefix: string := "Пришло время:\n"

  function Confirmation(a: Announced): string {
    "📝 Ваше напоминание: \"" + a.text + "\"\n🗓 Дата: " + a.dateStr + " \n⏰ Время: " + a.timeStr
  }

  /** The delivery job for a reminder of `owner`: sent to the sender's chat at the fire time. */
  function DeliveryJob(owner: int, a: Analysed): Job {
    Job(owner, DeliveryPrefix + a.text, a.fireAt)
  }

  // ----------------------------------------------------------- submission

  /**
    `get_reminder_text`: announce the analysis, analyse the message, then
    either reject it (no date found, or a fire time before `now`) or confirm
    it, enqueue its delivery at the fire time, and only then store it
    through `set_info_remind`. `ex` is the date extractor's result for the
    handler's own analysis and `exDb` its result for the second analysis
    `set_info_remind` runs on the same message after the reply and the
    enqueue; the extractor reads the clock, so the two can differ. `db` and
    `queue` tell whether the database and the job broker answer, and
    `monthName` renders `%B`. A failing enqueue raises into the generic
    handler, so nothing is stored.
   */
  function Submit(s: Store, db: Conn, queue: Conn, owner: int, ex: Extraction, exDb: Extraction, now: Timestamp, monthName: int -> string): (r: (Store, seq<Effect>))
    ensures |r.1| >= 2 && r.1[0] == Answer(Analysing)
    ensures AnalyzeDb(ex).Failure? ==> r == (s, [Answer(Analysing), Reply(IncludeDate)])
    ensures AnalyzeDb(ex).Success? && AnalyzeDb(ex).value.fireAt < now ==> r == (s, [Answer(Analysing), Answer(MinimumTime)])
    ensures AnalyzeDb(ex).Success? && AnalyzeDb(ex).value.fireAt >= now && queue.Down? ==>
      r.0 == s && |r.1| == 3 && r.1[1].Answer? && r.1[2] == Reply(AnalysisFailed)
    ensures AnalyzeDb(ex).Success? && AnalyzeDb(ex).value.fireAt >= now && queue.Up? ==>
      var job := DeliveryJob(owner, AnalyzeDb(ex).value);
      && |r.1| == 4 && r.1[1].Answer? && r.1[2] == Enqueue(job) && r.1[3] == Persist
      && r.0.jobs == s.jobs + [job]
    ensures AnalyzeHandlers(ex, monthName).Success? && AnalyzeHandlers(ex, monthName).value.fireAt >= now ==>
      r.1[1] == Answer(Confirmation(AnalyzeHandlers(ex, monthName).value))
    ensures r.0.users == s.users
    ensures r.0.rows != s.rows <==>
      && AnalyzeDb(ex).Success? && AnalyzeDb(ex).value.fireAt >= now && queue.Up?
      && AnalyzeDb(exDb).Success? && db.Up? && InInt32(owner) && s.nextId <= Int32Max && IsUser(s.users, owner)
    ensures r.0.rows != s.rows ==> r.0.rows == s.rows + [Reminder(s.nextId, AnalyzeDb(exDb).value.text, AnalyzeDb(exDb).value.fireAt, owner)]
    ensures r.0.nextId == s.nextId || r.0.nextId == s.nextId + 1
    ensures r.0.nextId == s.nextId + 1 <==>
      && AnalyzeDb(ex).Success? && AnalyzeDb(ex).value.fireAt >= now && queue.Up?
      && AnalyzeDb(exDb).Success? && db.Up? && InInt32(owner) && s.nextId <= Int32Max
    ensures Valid(s) ==> Valid(r.0)
  {
    AnalysersAgree(ex, monthName);
    match AnalyzeHandlers(ex, monthName)
    case Failure(_) => (s, [Answer(Analysing), Reply(IncludeDate)])
    case Success(a) =>
      if a.fireAt < now then (s, [Answer(Analysing), Answer(MinimumTime)])
      else
        var confirm := Answer(Confirmation(a));
        if queue.Down? then (s, [Answer(Analysing), confirm, Reply(AnalysisFailed)])
        else
          var job := Job(owner, DeliveryPrefix + a.text, a.fireAt);
          var queued := s.(jobs := s.jobs + [job]);
          (SetInfoRemind(queued, db, owner, exDb), [Answer(Analysing), confirm, Enqueue(job), Persist])
  }

  /**
    When the second analysis agrees with the first, a stored reminder is
    matched by a delivery job queued in the same call for the same chat,
    body and time, and that time is not before `now`.
   */
  lemma SubmitStoresWhatItQueues(s: Store, db: Conn, queue: Conn, owner: int, ex: Extraction, exDb: Extraction, now: Timestamp, monthName: int -> string)
    requires AnalyzeDb(exDb) == AnalyzeDb(ex)
    ensures var r := Submit(s, db, queue, owner, ex, exDb, now, monthName);
      forall x :: x in r.0.rows && x !in s.rows ==>
        && x.datetime >= now
        && |r.0.jobs| == |s.jobs| + 1
        && r.0.jobs[|s.jobs|] == Job(x.owner, DeliveryPrefix + x.text, x.datetime)
  {
    var r := Submit(s, db, queue, owner, ex, exDb, now, monthName);
    if r.0.rows != s.rows {
      forall x | x in r.0.rows && x !in s.rows
        ensures x == Reminder(s.nextId, AnalyzeDb(ex).value.text, AnalyzeDb(ex).value.fireAt, owner)
      {
        var i :| 0 <= i < |r.0.rows| && r.0.rows[i] == x;
      }
    }
  }

  /**
    When the second analysis resolves the date differently, the stored row
    and the queued job disagree: here the job is due at second 100 while the
    row says second 200, although both analyses succeed.
   */
  lemma SubmitMayStoreAnotherTime()
    ensures var s := Store({User(1, None)}, [], 1, []);
      var ex := Extraction([Placeholder], [DateCandidate(100)]);
      var exDb := Extraction([Placeholder], [DateCandidate(200)]);
      var r := Submit(s, Up, Up, 1, ex, exDb, 0, _ => "");
      && r.0.jobs == [Job(1, DeliveryPrefix, 100)]
      && r.0.rows == [Reminder(1, "", 200, 1)]
  {
    var s := Store({User(1, None)}, [], 1, []);
    var ex := Extraction([Placeholder], [DateCandidate(100)]);
    var exDb := Extraction([Placeholder], [DateCandidate(200)]);
    assert IsUser(s.users, 1) by { assert User(1, None) in s.users; }
    assert FirstIndex([Placeholder], Placeholder) == Some(0);
    assert [Placeholder][..0] + [Placeholder][1..] == [];
    assert AnalyzeDb(ex) == Success(Analysed("", 100));
    assert AnalyzeDb(exDb) == Success(Analysed("", 200));
    var r := Submit(s, Up, Up, 1, ex, exDb, 0, _ => "");
    assert DeliveryPrefix + "" == DeliveryPrefix;
    assert r.0.jobs == [] + [DeliveryJob(1, Analysed("", 100))];
    assert r.0.rows != s.rows;
    assert r.0.rows == [Reminder(1, "", 200, 1)];
  }

  /** A submission enqueues at most one job, and never one due before `now`. */
  lemma SubmitQueuesNothingEarly(s: Store, db: Conn, queue: Conn, owner: int, ex: Extraction, exDb: Extraction, now: Timestamp, monthName: int -> string)
    ensures var r := Submit(s, db, queue, owner, ex, exDb, now, monthName);
      && (r.0.jobs == s.jobs || (|r.0.jobs| == |s.jobs| + 1 && r.0.jobs[..|s.jobs|] == s.jobs))
      && forall j :: |s.jobs| <= j < |r.0.jobs| ==> r.0.jobs[j].deferUntil >= now && r.0.jobs[j].chatId == owner
  {
    var r := Submit(s, db, queue, owner, ex, exDb, now, monthName);
    if r.0.jobs != s.jobs {
      assert (s.jobs + [DeliveryJob(owner, AnalyzeDb(ex).value)])[..|s.jobs|] == s.jobs;
    }
  }

  // -------------------------------------------------------------- listing

  const ListHeader: string := "🥷 Вот список ваших напоминаний 📃\n"
  const ListEmpty: string := "Список напоминаний пуст"

  /** Line `i` of the listing: number, text in quotes, and `str()` of the datetime. */
  function ListLine(i: nat, e: Entry): string {
    "\n" + NatToString(i) + ". Напоминание: \"" + e.text + "\", Дата и время: " + Render(FromSeconds(e.datetime))
  }

  /** The lines for `es`, numbered from `from` on. */
  function Lines(es: seq<Entry>, from: nat): seq<string> {
    seq(|es|, i requires 0 <= i < |es| => ListLine(from + i, es[i]))
  }

  /** Python's `''.join(ls)`. */
  function Concat(ls: seq<string>): string
    decreases |ls|
  {
    if ls == [] then "" else ls[0] + Concat(ls[1..])
  }

  lemma {:induction false} ConcatAppend(x: seq<string>, y: seq<string>)
    ensures Concat(x + y) == Concat(x) + Concat(y)
    decreases |x|
  {
    if x == [] {
      assert x + y == y;
    } else {
      assert (x + y)[1..] == x[1..] + y;
      ConcatAppend(x[1..], y);
    }
  }

  /** The text the numbered lines make up, numbered from `from` on. */
  function ListLines(es: seq<Entry>, from: nat): string {
    Concat(Lines(es, from))
  }

  /** Listing two parts one after the other continues the numbering. */
  lemma ListLinesAppend(a: seq<Entry>, b: seq<Entry>, from: nat)
    ensures ListLines(a + b, from) == ListLines(a, from) + ListLines(b, from + |a|)
  {
    var x, y := Lines(a + b, from), Lines(a, from) + Lines(b, from + |a|);
    forall i | 0 <= i < |x| ensures x[i] == y[i] {
      if i < |a| {
        assert (a + b)[i] == a[i];
      } else {
        var j := i - |a|;
        assert (a + b)[i] == b[j] && from + i == (from + |a|) + j;
      }
    }
    assert x == y;
    ConcatAppend(Lines(a, from), Lines(b, from + |a|));
  }

  /** Line `k` (1-based) of the listing shows the `k`-th entry, between the lines before and after it. */
  lemma ListShowsEntry(es: seq<Entry>, k: nat)
    requires 1 <= k <= |es|
    ensures ListLines(es, 1) == ListLines(es[..k - 1], 1) + ListLine(k, es[k - 1]) + ListLines(es[k..], k + 1)
  {
    var rest := [es[k - 1]] + es[k..];
    assert es == es[..k - 1] + rest;
    ListLinesAppend(es[..k - 1], rest, 1);
    ListLinesAppend([es[k - 1]], es[k..], k);
    ListLinesSingle(es[k - 1], k);
  }

  lemma ListLinesSingle(e: Entry, k: nat)
    ensures ListLines([e], k) == ListLine(k, e)
  {
    assert Lines([e], k) == [ListLine(k, e)];
    assert Concat([ListLine(k, e)]) == ListLine(k, e) + Concat([]);
  }

  /**
    `list_reminder`: the header followed by one numbered line per reminder,
    built line by line, or the empty-list reply when there is none (which
    includes a failed query).
   */
  method ListReminder(s: Store, conn: Conn, owner: int) returns (msg: string)
    ensures GetAllReminders(s, conn, owner) == [] <==> msg == ListEmpty
    ensures GetAllReminders(s, conn, owner) != [] ==> msg == ListHeader + ListLines(GetAllReminders(s, conn, owner), 1)
  {
    var es := GetAllReminders(s, conn, owner);
    if es == [] {
      return ListEmpty;
    }
    var lines := NumberedLines(es);
    msg := ListHeader + lines;
    HeaderIsNotEmptyReply(lines);
  }

  /** The `for i, reminder in enumerate(reminders, 1)` loop, appending one line per reminder. */
  method NumberedLines(es: seq<Entry>) returns (lines: string)
    ensures lines == ListLines(es, 1)
  {
    lines := "";
    var i := 0;
    while i < |es|
      invariant 0 <= i <= |es|
      invariant lines == ListLines(es[..i], 1)
    {
      ListStep(es, i);
      lines := lines + ListLine(i + 1, es[i]);
      i := i + 1;
    }
    assert es[..i] == es;
  }

  lemma ListStep(es: seq<Entry>, i: nat)
    requires i < |es|
    ensures ListLines(es[..i + 1], 1) == ListLines(es[..i], 1) + ListLine(i + 1, es[i])
  {
    assert es[..i + 1] == es[..i] + [es[i]];
    ListLinesAppend(es[..i], [es[i]], 1);
    ListLinesSingle(es[i], i + 1);
  }

  lemma HeaderIsNotEmptyReply(lines: string)
    ensures ListHeader + lines != ListEmpty
  {
    assert (ListHeader + lines)[0] == ListHeader[0];
  }

  // ------------------------------------------------------------- deletion

  const BadNumber: string := "Пожалуйста, укажите корректный номер напоминания."

  /**
    `int(message.text.split()[1])`; `None` where it raises `IndexError` (no
    second word) or `ValueError` (a second word that is not an integer).
   */
  function ArgumentNumber(msg: string): (r: Option<int>)
    ensures r.Some? <==> |Words(msg)| >= 2 && IsUnsignedLiteral(Unsigned(Words(msg)[1]))
    ensures r.Some? && AllDigits(Words(msg)[1]) ==> r.value == DigitsValue(Words(msg)[1])
  {
    var ws := Words(msg);
    if |ws| < 2 then None else ParsePyInt(ws[1])
  }

  /** Whether `n` is a position of `list` under the handlers' range check. */
  predicate InRange(list: seq<Entry>, n: int) {
    1 <= n <= |list|
  }

  /**
    The sequence index of the entry shown as number `n`. It is only `n - 1`,
    but naming it keeps an index term like `list[Slot(n)]` the same term in
    every contract and lemma that mentions it, where the bare `list[n - 1]`
    would be rewritten arithmetically and matched far more often.
   */
  function Slot(n: int): nat
    requires n >= 1
  {
    n - 1
  }

  /**
    `handle_delete_reminder`: read the position, check it against the
    sender's listing, and delete the reminder at that position; the reply
    is `delete_reminder`'s message or the bad-number reply.
   */
  function DeleteByPosition(s: Store, conn: Conn, owner: int, msg: string): (r: (Store, string))
    ensures r.0.users == s.users && r.0.nextId == s.nextId && r.0.jobs == s.jobs
    ensures r.1 == BadNumber <==> !(ArgumentNumber(msg).Some? && InRange(GetAllReminders(s, conn, owner), ArgumentNumber(msg).value))
    ensures r.1 == BadNumber ==> r.0 == s
    ensures r.1 != BadNumber ==> r.1 == Deleted.Message()
    ensures r.1 != BadNumber ==> forall x :: x in r.0.rows <==> x in s.rows && !Matches(x, GetAllReminders(s, conn, owner)[Slot(ArgumentNumber(msg).value)].id, owner)
    ensures Valid(s) && r.1 != BadNumber ==> |r.0.rows| == |s.rows| - 1
    ensures Valid(s) ==> Valid(r.0)
  {
    match ArgumentNumber(msg)
    case None => (s, BadNumber)
    case Some(n) =>
      var list := GetAllReminders(s, conn, owner);
      if !InRange(list, n) then (s, BadNumber)
      else
        var e := list[Slot(n)];
        DeleteFound(s, conn, owner, e);
        MessagesDistinct();
        var (t, out) := DeleteReminder(s, conn, e.id, owner);
        (t, out.Message())
  }

  lemma MessagesDistinct()
    ensures Deleted.Message() != BadNumber
    ensures Updated.Message() != BadEdit
  {
    assert Deleted.Message() == "Напоминание успешно удалено.";
    assert Updated.Message() == "Напоминание успешно обновлено!";
  }

  /** A listed entry names a row the sender owns, so deleting its id succeeds, and removes one row when ids are serial. */
  lemma DeleteFound(s: Store, conn: Conn, owner: int, e: Entry)
    requires e in GetAllReminders(s, conn, owner)
    ensures conn.Up? && DeleteReminder(s, conn, e.id, owner).1 == Deleted
    ensures Valid(s) ==> |DeleteReminder(s, conn, e.id, owner).0.rows| == |s.rows| - 1
  {
    GetAllRemindersMembers(s, conn, owner);
    var x :| x in s.rows && x.owner == owner && e == EntryOf(x);
    if Valid(s) {
      var i :| 0 <= i < |s.rows| && s.rows[i] == x;
      DeleteRemovesRow(s, i, owner);
    }
  }

  /** A listed entry names a row the sender owns, so updating its id succeeds. */
  lemma UpdateFound(s: Store, conn: Conn, owner: int, e: Entry, text: string, date: Timestamp)
    requires e in GetAllReminders(s, conn, owner)
    ensures conn.Up? && UpdateReminder(s, conn, e.id, text, date, owner).1 == Updated
  {
    GetAllRemindersMembers(s, conn, owner);
    var x :| x in s.rows && x.owner == owner && e == EntryOf(x);
  }

  /** A position that passes the range check is deleted through `delete_reminder` with the listed id. */
  lemma DeleteByPositionDeletes(s: Store, conn: Conn, owner: int, msg: string)
    requires ArgumentNumber(msg).Some? && InRange(GetAllReminders(s, conn, owner), ArgumentNumber(msg).value)
    ensures var e := GetAllReminders(s, conn, owner)[Slot(ArgumentNumber(msg).value)];
      DeleteByPosition(s, conn, owner, msg) == (DeleteReminder(s, conn, e.id, owner).0, Deleted.Message())
  {
    var e := GetAllReminders(s, conn, owner)[Slot(ArgumentNumber(msg).value)];
    DeleteFound(s, conn, owner, e);
  }

  /** With a valid store, deleting at position `n` removes exactly the `n`-th entry of the sender's listing and no one else's. */
  lemma DeleteByPositionListing(s: Store, owner: int, msg: string, other: int)
    requires Valid(s) && other != owner
    requires ArgumentNumber(msg).Some? && InRange(GetAllReminders(s, Up, owner), ArgumentNumber(msg).value)
    ensures var list := GetAllReminders(s, Up, owner);
      var n := ArgumentNumber(msg).value;
      var r := DeleteByPosition(s, Up, owner, msg);
      && GetAllReminders(r.0, Up, owner) == list[..Slot(n)] + list[Slot(n) + 1..]
      && GetAllReminders(r.0, Up, other) == GetAllReminders(s, Up, other)
  {
    var list := GetAllReminders(s, Up, owner);
    var n := ArgumentNumber(msg).value;
    DeleteByPositionDeletes(s, Up, owner, msg);
    DeleteListed(s, owner, Slot(n));
    DeleteIsolated(s, Up, list[Slot(n)].id, owner, other);
  }

  /** The command a user types to delete the reminder listed as number `n`. */
  function DeleteCommand(n: nat): string {
    "/delete_reminder " + NatToString(n)
  }

  lemma DeleteCommandIsWord()
    ensures IsWord("/delete_reminder")
  {
    var w := "/delete_reminder";
    forall i | 0 <= i < |w| ensures !IsSpace(w[i]) {
      assert w[i] as int >= 0x2F;
    }
  }

  lemma DigitsAreWord(s: string)
    requires s != [] && AllDigits(s)
    ensures IsWord(s)
  {
    forall i | 0 <= i < |s| ensures !IsSpace(s[i]) {
      assert IsDigit(s[i]);
    }
  }

  /** The number shown in the listing, typed back after `/delete_reminder`, is read as that number. */
  lemma DeleteCommandRoundTrip(n: nat)
    ensures ArgumentNumber(DeleteCommand(n)) == Some(n)
  {
    var ws := ["/delete_reminder", NatToString(n)];
    DeleteCommandIsWord();
    DigitsAreWord(NatToString(n));
    WordsOfJoin(ws);
    assert JoinSpaced(ws) == DeleteCommand(n);
    PyIntRoundTrip(n);
  }

  // -------------------------------------------------------------- editing

  const BadEdit: string := "Пожалуйста, укажите корректный номер напоминания, новый текст и дату."
  const EditPrefix: string := "/edit_reminder "

  /** The three groups of a match of the edit pattern. */
  datatype EditMatch = EditMatch(number: string, text: string, date: string)

  /** Length of the leading run of digits of `s`. */
  function DigitRun(s: string): (n: nat)
    ensures n <= |s|
    ensures forall i :: 0 <= i < n ==> IsDigit(s[i])
    ensures n < |s| ==> !IsDigit(s[n])
  {
    if s == [] || !IsDigit(s[0]) then 0 else 1 + DigitRun(s[1..])
  }

  /** Index of the first line break of `s`, or `|s|`: how far `.` can reach. */
  function LineEnd(s: string): (n: nat)
    ensures n <= |s|
    ensures forall i :: 0 <= i < n ==> s[i] != '\n'
    ensures n < |s| ==> s[n] == '\n'
  {
    if s == [] || s[0] == '\n' then 0 else 1 + LineEnd(s[1..])
  }

  /** Whether ` \d{4}-\d{2}-\d{2} \d{2}:\d{2}:\d{2}` matches at position `k` of `s`. */
  predicate DateAt(s: string, k: nat) {
    k + 20 <= |s| && s[k] == ' ' && IsDateTimeShape(s[k + 1..k + 20])
  }

  /** The last position in `1..k` where the date part matches: where greedy `(.+)` stops. */
  function LastDateAt(s: string, k: int): (r: Option<nat>)
    ensures r.Some? ==> 1 <= r.value <= k && DateAt(s, r.value)
    ensures r.Some? ==> forall j :: r.value < j <= k ==> !DateAt(s, j)
    ensures r.None? ==> forall j :: 1 <= j <= k ==> !DateAt(s, j)
    decreases k
  {
    if k < 1 then None else if DateAt(s, k) then Some(k) else LastDateAt(s, k - 1)
  }

  /**
    `re.match(r'/edit_reminder (\d+) (.+) (\d{4}-\d{2}-\d{2} \d{2}:\d{2}:\d{2})', text)`:
    anchored at the start only; `\d+` takes the whole digit run, and the
    greedy `(.+)` extends to the last date that still starts on the first
    line. Whatever follows the date is ignored.
   */
  function MatchEdit(msg: string): (r: Option<EditMatch>)
    ensures r.Some? ==>
      && r.value.number != [] && AllDigits(r.value.number)
      && r.value.text != [] && '\n' !in r.value.text
      && IsDateTimeShape(r.value.date)
      && |EditPrefix| + |r.value.number| + |r.value.text| + 21 <= |msg|
      && msg[..|EditPrefix| + |r.value.number| + |r.value.text| + 21] == EditPrefix + r.value.number + " " + r.value.text + " " + r.value.date
  {
    var p := |EditPrefix|;
    if |msg| < p || msg[..p] != EditPrefix then None
    else
      var t := msg[p..];
      var n := DigitRun(t);
      if n == 0 || n == |t| || t[n] != ' ' then None
      else
        var rest := t[n + 1..];
        match LastDateAt(rest, LineEnd(rest))
        case None => None
        case Some(k) =>
          EditSplit(msg, n, k);
          Some(EditMatch(t[..n], rest[..k], rest[k + 1..k + 20]))
  }

  lemma EditSplit(msg: string, n: nat, k: nat)
    requires |EditPrefix| + n + 1 + k + 20 <= |msg| && msg[..|EditPrefix|] == EditPrefix
    requires msg[|EditPrefix| + n] == ' ' && msg[|EditPrefix| + n + 1 + k] == ' '
    ensures var t := msg[|EditPrefix|..]; var rest := t[n + 1..];
      msg[..|EditPrefix| + n + k + 21] == EditPrefix + t[..n] + " " + rest[..k] + " " + rest[k + 1..k + 20]
  {
    var p := |EditPrefix|;
    var t := msg[p..];
    var rest := t[n + 1..];
    var whole := EditPrefix + t[..n] + " " + rest[..k] + " " + rest[k + 1..k + 20];
    assert |whole| == p + n + k + 21;
    forall i | 0 <= i < |whole| ensures whole[i] == msg[i] {
      if i < p {
      } else if i < p + n {
        assert whole[i] == t[i - p];
      } else if i == p + n {
      } else if i < p + n + 1 + k {
        assert whole[i] == rest[i - p - n - 1];
      } else if i == p + n + 1 + k {
      } else {
        assert whole[i] == rest[i - p - n - 1];
      }
    }
  }

  /** The command a user types to give the reminder listed as number `n` a new text and time. */
  function EditCommand(n: nat, text: string, dt: DateTime): string
    requires ValidDateTime(dt)
  {
    EditPrefix + NatToString(n) + " " + text + " " + Render(dt)
  }

  /**
    Typing back a listed number with a one-line text and a rendered date
    matches with exactly those three parts, whatever dates the text itself
    contains.
   */
  lemma EditCommandRoundTrip(n: nat, text: string, dt: DateTime)
    requires ValidDateTime(dt) && text != [] && '\n' !in text
    ensures MatchEdit(EditCommand(n, text, dt)) == Some(EditMatch(NatToString(n), text, Render(dt)))
  {
    RenderShape(dt);
    var num, date := NatToString(n), Render(dt);
    assert EditCommand(n, text, dt) == EditPrefix + (num + (" " + (text + " " + date)));
    MatchEditOfParts(num, text, date);
  }

  /** The pattern splits a message built from its three parts back into those parts. */
  lemma MatchEditOfParts(num: string, text: string, date: string)
    requires num != [] && AllDigits(num)
    requires text != [] && '\n' !in text
    requires IsDateTimeShape(date)
    ensures MatchEdit(EditPrefix + (num + (" " + (text + " " + date)))) == Some(EditMatch(num, text, date))
  {
    var rest := text + " " + date;
    var t := num + (" " + rest);
    var msg := EditPrefix + t;
    PrefixSplit(t);
    NumberRun(num, rest);
    DateIsLast(text, date);
    MatchEditOf(msg, |num|, |text|);
  }

  lemma PrefixSplit(t: string)
    ensures (EditPrefix + t)[..|EditPrefix|] == EditPrefix && (EditPrefix + t)[|EditPrefix|..] == t
  {
  }

  /** `MatchEdit` in terms of the positions where its three groups end. */
  lemma MatchEditOf(msg: string, n: nat, k: nat)
    requires |EditPrefix| <= |msg| && msg[..|EditPrefix|] == EditPrefix
    requires var t := msg[|EditPrefix|..];
      && 0 < n < |t| && DigitRun(t) == n && t[n] == ' '
      && LastDateAt(t[n + 1..], LineEnd(t[n + 1..])) == Some(k)
    ensures var t := msg[|EditPrefix|..]; var rest := t[n + 1..];
      MatchEdit(msg) == Some(EditMatch(t[..n], rest[..k], rest[k + 1..k + 20]))
  {
  }

  /** `\d+` followed by a space takes exactly the rendered number. */
  lemma NumberRun(num: string, rest: string)
    requires num != [] && AllDigits(num)
    ensures var t := num + (" " + rest);
      && 0 < |num| < |t| && DigitRun(t) == |num| && t[|num|] == ' '
      && t[..|num|] == num && t[|num| + 1..] == rest
  {
    var t := num + (" " + rest);
    assert forall i :: 0 <= i < |num| ==> t[i] == num[i];
    assert t[|num|] == ' ';
  }

  /** Date-time-shaped text holds no line break. */
  lemma ShapeOneLine(date: string)
    requires IsDateTimeShape(date)
    ensures '\n' !in date
  {
    forall i | 0 <= i < |date| ensures date[i] != '\n' {
      if !IsSeparatorPos(i) { assert IsDigit(date[i]); }
    }
  }

  /** In `text + " " + date` with a one-line text, the greedy match ends exactly before the date. */
  lemma DateIsLast(text: string, date: string)
    requires text != [] && '\n' !in text && IsDateTimeShape(date)
    ensures var rest := text + " " + date;
      && LastDateAt(rest, LineEnd(rest)) == Some(|text|)
      && rest[..|text|] == text && rest[|text| + 1..|text| + 20] == date
  {
    var rest := text + " " + date;
    ShapeOneLine(date);
    forall i | 0 <= i < |rest| ensures rest[i] != '\n' {
      if i < |text| { assert rest[i] == text[i]; }
      else if i > |text| { assert rest[i] == date[i - |text| - 1]; }
    }
    assert LineEnd(rest) == |rest|;
    assert rest[|text| + 1..|text| + 20] == date;
    assert DateAt(rest, |text|);
    assert rest[..|text|] == text;
  }

  /** What the edit handler extracts before looking at the listing: `int` of the number, the text, and `strptime` of the date. */
  datatype EditArgs = EditArgs(number: int, text: string, date: Timestamp)

  /**
    The parsing half of `handle_edit_reminder`: the regular expression,
    `int()` of the number group, and `strptime` of the date group. `None`
    where the handler raises `ValueError` before it reads the listing; since
    the number group is all ASCII digits, `int()` itself never fails there.
   */
  function EditRequest(msg: string): (r: Option<EditArgs>)
    ensures r.Some? <==> MatchEdit(msg).Some? && ParseDateTime(MatchEdit(msg).value.date).Some?
    ensures r.Some? ==>
      && r.value.number == DigitsValue(MatchEdit(msg).value.number)
      && r.value.text == MatchEdit(msg).value.text
      && r.value.date == ToSeconds(ParseDateTime(MatchEdit(msg).value.date).value)
  {
    match MatchEdit(msg)
    case None => None
    case Some(m) =>
      match ParsePyInt(m.number)
      case None => None
      case Some(n) =>
        match ParseDateTime(m.date)
        case None => None
        case Some(dt) => Some(EditArgs(n, m.text, ToSeconds(dt)))
  }

  /**
    The rest of `handle_edit_reminder` once the arguments are parsed: check
    the number against the sender's listing and update the reminder at that
    position through `update_reminder`.
   */
  function EditAt(s: Store, conn: Conn, owner: int, a: EditArgs): (r: (Store, string))
    ensures r.0.users == s.users && r.0.nextId == s.nextId && r.0.jobs == s.jobs
    ensures r.1 == BadEdit <==> !InRange(GetAllReminders(s, conn, owner), a.number)
    ensures r.1 == BadEdit ==> r.0 == s
    ensures r.1 != BadEdit ==> r.1 == Updated.Message() && |r.0.rows| == |s.rows|
    ensures Valid(s) ==> Valid(r.0)
  {
    var list := GetAllReminders(s, conn, owner);
    if !InRange(list, a.number) then (s, BadEdit)
    else
      var e := list[Slot(a.number)];
      UpdateFound(s, conn, owner, e, a.text, a.date);
      MessagesDistinct();
      var (t, out) := UpdateReminder(s, conn, e.id, a.text, a.date, owner);
      (t, out.Message())
  }

  /**
    `handle_edit_reminder`: the reply is `update_reminder`'s message or the
    bad-edit reply. The delivery job already queued is not touched.
   */
  function EditByPosition(s: Store, conn: Conn, owner: int, msg: string): (r: (Store, string))
    ensures r.0.users == s.users && r.0.nextId == s.nextId && r.0.jobs == s.jobs
    ensures r.1 == BadEdit <==> !(EditRequest(msg).Some? && InRange(GetAllReminders(s, conn, owner), EditRequest(msg).value.number))
    ensures r.1 == BadEdit ==> r.0 == s
    ensures r.1 != BadEdit ==> r.1 == Updated.Message() && |r.0.rows| == |s.rows|
    ensures Valid(s) ==> Valid(r.0)
  {
    match EditRequest(msg)
    case None => (s, BadEdit)
    case Some(a) => EditAt(s, conn, owner, a)
  }

  /** A request that passes the range check is carried out through `update_reminder` with the listed id. */
  lemma EditAtUpdates(s: Store, conn: Conn, owner: int, a: EditArgs)
    requires InRange(GetAllReminders(s, conn, owner), a.number)
    ensures var e := GetAllReminders(s, conn, owner)[Slot(a.number)];
      EditAt(s, conn, owner, a) == (UpdateReminder(s, conn, e.id, a.text, a.date, owner).0, Updated.Message())
  {
    var e := GetAllReminders(s, conn, owner)[Slot(a.number)];
    UpdateFound(s, conn, owner, e, a.text, a.date);
  }

  /** The typed-back command is understood as exactly the number, text and date that produced it. */
  lemma EditCommandRequest(n: nat, text: string, dt: DateTime)
    requires ValidDateTime(dt) && text != [] && '\n' !in text
    ensures EditRequest(EditCommand(n, text, dt)) == Some(EditArgs(n, text, ToSeconds(dt)))
  {
    EditCommandRoundTrip(n, text, dt);
    ParseRender(dt);
    PyIntRoundTrip(n);
  }

  /**
    With a valid store, editing at position `n` replaces the text and the
    time of exactly the `n`-th entry of the sender's listing, keeps its id
    and place, and leaves everyone else's listing alone.
   */
  lemma EditAtListing(s: Store, owner: int, a: EditArgs, other: int)
    requires Valid(s) && other != owner
    requires InRange(GetAllReminders(s, Up, owner), a.number)
    ensures var list := GetAllReminders(s, Up, owner);
      var t := EditAt(s, Up, owner, a).0;
      && GetAllReminders(t, Up, owner) == list[Slot(a.number) := Entry(list[Slot(a.number)].id, a.text, a.date)]
      && GetAllReminders(t, Up, other) == GetAllReminders(s, Up, other)
  {
    EditAtUpdates(s, Up, owner, a);
    UpdateListedReminders(s, owner, Slot(a.number), a.text, a.date, other);
  }

  /** The same, for the command as the user types it. */
  lemma EditByPositionListing(s: Store, owner: int, msg: string, other: int)
    requires Valid(s) && other != owner
    requires EditRequest(msg).Some? && InRange(GetAllReminders(s, Up, owner), EditRequest(msg).value.number)
    ensures var list := GetAllReminders(s, Up, owner);
      var a := EditRequest(msg).value;
      var r := EditByPosition(s, Up, owner, msg);
      && GetAllReminders(r.0, Up, owner) == list[Slot(a.number) := Entry(list[Slot(a.number)].id, a.text, a.date)]
      && GetAllReminders(r.0, Up, other) == GetAllReminders(s, Up, other)
  {
    var a := EditRequest(msg).value;
    assert EditByPosition(s, Up, owner, msg) == EditAt(s, Up, owner, a);
    EditAtListing(s, owner, a, other);
  }

  /**
    The whole round for editing: a user who reads number `n` off the listing
    and sends `/edit_reminder n text date` sees exactly the `n`-th line take
    the new text and time, in the same place.
   */
  lemma EditListedReminder(s: Store, owner: int, n: nat, text: string, dt: DateTime, other: int)
    requires Valid(s) && other != owner && 1 <= n <= |GetAllReminders(s, Up, owner)|
    requires ValidDateTime(dt) && text != [] && '\n' !in text
    ensures var list := GetAllReminders(s, Up, owner);
      var r := EditByPosition(s, Up, owner, EditCommand(n, text, dt));
      && r.1 == Updated.Message()
      && GetAllReminders(r.0, Up, owner) == list[Slot(n) := Entry(list[Slot(n)].id, text, ToSeconds(dt))]
      && GetAllReminders(r.0, Up, other) == GetAllReminders(s, Up, other)
  {
    EditCommandRequest(n, text, dt);
    EditByPositionListing(s, owner, EditCommand(n, text, dt), other);
  }

  /**
    The whole round for deletion: a user who reads number `n` off the
    listing and sends `/delete_reminder n` sees the `n`-th line disappear
    and the later ones move up.
   */
  lemma DeleteListedReminder(s: Store, owner: int, n: nat)
    requires Valid(s) && 1 <= n <= |GetAllReminders(s, Up, owner)|
    ensures var list := GetAllReminders(s, Up, owner);
      var r := DeleteByPosition(s, Up, owner, DeleteCommand(n));
      && r.1 == Deleted.Message()
      && GetAllReminders(r.0, Up, owner) == list[..Slot(n)] + list[Slot(n) + 1..]
  {
    DeleteCommandRoundTrip(n);
    DeleteListed(s, owner, Slot(n));
  }
}
