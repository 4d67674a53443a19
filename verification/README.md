# Reminder bookkeeping of the NudgeNinja scheduler bot, in Dafny

This project models the bookkeeping core of a Telegram reminder bot. Users register and send free-text reminders. A date extractor finds the fire time, and the bot does three things with an accepted reminder:

- it queues a delivery job for that time;
- it stores the reminder in PostgreSQL;
- it lets the sender list, delete and edit their reminders by their position in the listing.

A background sweep deletes reminders whose time has passed.

The model is a pure state machine over one immutable `Store`:

- the `main_users` table, as a set of users;
- the `main_schedule` table, as a sequence of rows in insertion order;
- the next value of the `id serial` sequence;
- the job broker's queue, as an append-only sequence of jobs.

Every database function takes the connection's availability (`Conn = Up | Down`) as a parameter. A call on a `Down` connection returns the function's fallback value and leaves the store alone, just as the Python code swallows every database exception. Handlers return the new store together with their reply, or with the trace of effects they perform in order (answer, reply, enqueue, persist).

Files:

- `prelude.dfy`:
  - `Option` and `Result`;
  - the bounds of PostgreSQL `integer`.
- `text.dfy`:
  - Python's `str.split()` and `' '.join`;
  - decimal rendering;
  - `int()` on a token.
- `calendar.dfy`:
  - datetimes and their conversion to integer seconds;
  - `str(datetime)`;
  - `strptime` with `%Y-%m-%d %H:%M:%S`.
- `schema.dfy`: the two tables, the job record, the declared constraints as the invariant `Valid`, and the `ON DELETE CASCADE` of the foreign key.
- `analysis.dfy`: the post-processing that `analyze_reminder_handlers` and `analyze_reminder_db` apply to the date extractor's result.
- `store.dfy`: the database functions of `bot/db/db_func.py`.
- `handlers.dfy`: the handlers of `bot/handlers/user_handlers.py`. These are submission, listing, deletion by position and editing by position, including the `/edit_reminder` regular expression.

Decisions:

- **Timestamps.** A timestamp is a whole number of seconds since 0001-01-01 00:00:00, which is the range of Python's `datetime`. The conversion to and from a calendar date-time is proved to be a bijection that preserves order.
- **Row order.** Rows are kept in insertion order, and every `SELECT` without `ORDER BY` is assumed to return them in that order.
- **Serial ids.** `id serial` draws its value before the foreign key is checked. So an insert for an unregistered owner fails but still uses up an id. An owner outside `integer` fails before a value is drawn, and so does an insert once the sequence is exhausted.
- **Accept/reject rule.** A new reminder is rejected exactly when its fire time is strictly before `now`, as the code compares (`bot/handlers/user_handlers.py:85`). The reply text speaks of a one-minute minimum, but nothing enforces it.
- **Empty bodies.** A reminder body may be empty. The tokens can be just the date placeholder, and the code stores `''` in that case.
- **The edit pattern.** `re.match` anchors the pattern only at the start of the message. The greedy `(.+)` makes the date group the last date-shaped suffix before the first line break. Anything after that date is ignored. `\d` and `int()` are modelled on ASCII digits only.
- **Date validity.** `strptime` accepts a date-time only if it exists in the calendar. The year runs from 1 to 9999, the hour is below 24, and the minute and second are below 60.

## Model

| member | source | states |
|---|---|---|
| Text.WordsOfJoin | bot/other_func/reminder_analysis.py:19 | `str.split()` undoes `' '.join` on whitespace-free tokens, so the joined reminder body splits back into exactly its tokens |
| Text.Words | bot/handlers/user_handlers.py:115 | every piece `str.split()` returns is non-empty and free of whitespace; with `Text.WordsEmpty`, `Text.WordsSkipSpace` and `Text.WordsCons` this determines `split()` completely, and `WordsOfJoin` is its round trip with `' '.join` |
| Text.WordsSkipSpace | bot/handlers/user_handlers.py:115 | a leading whitespace character (Python's `isspace` set) never changes what `str.split()` returns |
| Text.WordsCons | bot/handlers/user_handlers.py:115 | a word followed by nothing or by whitespace splits into that word and then the words of the rest |
| Text.PyIntRoundTrip | bot/handlers/user_handlers.py:115 | `int()` reads back every decimal rendering of a number, with or without a leading minus |
| Text.ParsePyInt | bot/handlers/user_handlers.py:115 | `int()` succeeds exactly on an optional sign followed by a decimal literal (underscores only between digits), so a token with a letter, a point or an inner sign is refused; the value is the literal's, negated after a minus, and an all-digit token reads as its decimal value |
| Text.NatToStringRoundTrip | bot/handlers/user_handlers.py:55-56 | the number printed in front of a listing line has exactly the value of its position |
| Calendar.FromToSeconds | bot/db/db_tables.py:39 | storing a valid date-time as seconds and reading it back gives the same date-time |
| Calendar.FromSeconds | bot/db/db_tables.py:39 | every stored timestamp denotes a valid date-time that converts back to it |
| Calendar.ToSecondsOrder | bot/handlers/user_handlers.py:85 | one date-time is before another iff its seconds are smaller, so comparing timestamps is comparing datetimes |
| Calendar.ParseRender | bot/handlers/user_handlers.py:151 | `strptime` with `%Y-%m-%d %H:%M:%S` reads back what `str(datetime)` writes |
| Calendar.RenderParse | bot/handlers/user_handlers.py:151 | whatever `strptime` accepts, `str()` of its result reproduces character for character |
| Calendar.ParseDateTime | bot/handlers/user_handlers.py:151 | on the 19-character date group the edit pattern hands it, `strptime` succeeds only for a date-time that exists in the calendar |
| Calendar.RenderShape | bot/handlers/user_handlers.py:56 | `str(datetime)` is 19 characters in the `YYYY-MM-DD HH:MM:SS` shape, with the zero-padded fields in place |
| Schema.IncreasingIsUnique | bot/db/db_tables.py:37 | ids drawn in increasing order from the serial sequence are unique |
| Schema.EmptyStoreValid | bot/db/db_tables.py:27-41 | the freshly created tables meet the declared constraints (`Valid`); every operation states `Valid(s) ==> Valid(r)`, so they hold in every reachable store |
| Schema.DeleteUser | bot/db/db_tables.py:40 | deleting a user removes exactly that user and exactly the rows owned by them; the declared constraints stay valid |
| Schema.DeleteUserCascade | bot/db/db_tables.py:40 | after the cascade the deleted user owns no reminder, and every other user's reminders are the same, in the same order |
| Analysis.FirstIndex | bot/other_func/reminder_analysis.py:18 | the index of the first placeholder token, or none iff no token is the placeholder |
| Analysis.RemoveFirst | bot/other_func/reminder_analysis.py:18 | `list.remove('{0}')` fails iff no placeholder is present, and otherwise cuts out the first occurrence only |
| Analysis.RemoveFirstCount | bot/other_func/reminder_analysis.py:18 | removal takes out exactly one placeholder and keeps every other token, later placeholders included |
| Analysis.AnalyzeDb | bot/other_func/reminder_analysis.py:37-44 | `ValueError` iff the placeholder is missing, `IndexError` iff it is present but no date was found; otherwise the body is the tokens around the first placeholder joined by single spaces, and the fire time is the first candidate's `date_from` |
| Analysis.AnalyzeHandlers | bot/other_func/reminder_analysis.py:15-25 | the `%H:%M` part of a successful analysis is five characters with a colon in the middle |
| Analysis.AnalysersAgree | bot/other_func/reminder_analysis.py:15-20 | both analysers fail together with the same exception, and otherwise agree on body and fire time |
| Analysis.TimeStrMatchesRender | bot/other_func/reminder_analysis.py:23 | `%H:%M` is the hour-and-minute slice of `str()` of the same fire time |
| Analysis.AnalysedBodyTokens | bot/other_func/reminder_analysis.py:18-19 | the stored body splits back into the tokens before and after the first placeholder, in their original order |
| Analysis.LaterCandidatesIgnored | bot/other_func/reminder_analysis.py:42 | date candidates after the first never change the result |
| Db.GetUser | bot/db/db_func.py:17-24 | the user is added iff the connection answers and the insert meets every column constraint; otherwise the store is unchanged; reminders, sequence and jobs are never touched and validity is kept |
| Db.GetUserIdempotent | bot/db/db_func.py:17-24 | a second registration with the same values changes nothing, and after a successful one the sender is a user |
| Db.InsertReminder | bot/db/db_func.py:139-143 | the row is appended with the next serial id iff the owner is an `integer` that references a user and the sequence has values left; the sequence advances iff a value is drawn, even when the foreign key then fails; validity is kept |
| Db.SetInfoRemind | bot/db/db_func.py:136-145 | an analysis failure leaves the store unchanged; otherwise exactly one row with the analysed body and fire time, owned by the sender, is appended iff the insert succeeds; the sequence advances iff the analysis succeeds and a value is drawn, so a failed insert leaves everything but possibly the sequence alone |
| Db.InsertAdvancesSequence | bot/db/db_func.py:139-143 | a newly stored row carries the sequence value drawn for it, and the sequence has moved past it |
| Db.GetAllReminders | bot/db/db_func.py:157-178 | a failed query lists nothing; with valid tables the listed ids are strictly increasing |
| Db.GetAllRemindersMembers | bot/db/db_func.py:157-175 | an entry is listed iff it is the `{id, text, datetime}` of a row the sender owns, so other owners' rows never appear |
| Db.CollectReminders | bot/db/db_func.py:165-175 | the comprehension over the fetched rows builds exactly the sender's entries in store order |
| Db.GetAllRemind | bot/db/db_func.py:59-70 | the texts are the listing's texts, position by position, and an empty list when the query fails |
| Db.DeleteReminder | bot/db/db_func.py:83-97 | success iff a row with this id and owner exists; otherwise the store is unchanged with the not-found or failure message; on success exactly the matching rows are gone; nothing else changes and validity is kept |
| Db.DeleteRemovesRow | bot/db/db_func.py:85-92 | with serial ids, deleting the id of row `i` removes exactly row `i` |
| Db.DeleteIsolated | bot/db/db_func.py:85-88 | a deletion never changes another user's listing |
| Db.DeleteListed | bot/db/db_func.py:85-92 | deleting the id shown at listing index `k` removes exactly entry `k` from the sender's listing |
| Db.UpdateRows | bot/db/db_func.py:114-118 | ids and owners are kept; a matching row gets the new text and datetime together; every other row is kept as it was |
| Db.UpdateReminder | bot/db/db_func.py:112-127 | success iff a row with this id and owner exists; otherwise the store is unchanged with the not-found or failure message; row count, ids and owners are kept; only matching rows change; validity is kept |
| Db.UpdateIsolated | bot/db/db_func.py:114-118 | an update never changes another user's listing |
| Db.UpdateListed | bot/db/db_func.py:114-122 | updating the id shown at listing index `k` replaces text and datetime of exactly entry `k` and keeps its id and place |
| Db.UpdateListedReminders | bot/db/db_func.py:114-122 | the same through `get_all_reminders`, together with the unchanged listing of every other user |
| Db.DeleteEach | bot/db/db_func.py:39-44 | deleting the selected rows one id at a time leaves exactly the rows whose id was not selected |
| Db.SweepSelects | bot/db/db_func.py:33-44 | with unique ids, deleting the ids of the expired rows deletes exactly the expired rows |
| Db.SweepTick | bot/db/db_func.py:31-44 | one pass keeps exactly the rows with `datetime >= now`, for all owners, in order; the count is the number of rows removed; a failed connection changes nothing; validity is kept |
| Db.SweepIdempotent | bot/db/db_func.py:31-44 | a second pass at the same instant selects nothing and keeps everything |
| Handlers.Submit | bot/handlers/user_handlers.py:78-102 | extraction failure gives the include-date reply with no job and no row; a fire time before `now` gives the minimum-time reply with no job and no row; otherwise it answers the confirmation with the body, the `%d %B` date and the `%H:%M` time of the first analysis, enqueues exactly the delivery job of the first analysis, and only then persists the result of the second analysis; a failing enqueue stores nothing; a row is added, and the sequence advances, exactly as `set_info_remind` on the second analysis decides |
| Handlers.SubmitStoresWhatItQueues | bot/handlers/user_handlers.py:89-93 | when the second analysis agrees with the first, every stored reminder has a delivery job queued in the same call for the same chat, body and time, and that time is not before `now` |
| Handlers.SubmitMayStoreAnotherTime | bot/handlers/user_handlers.py:82-93 | when the second analysis resolves the date differently, the stored row carries another time than the queued job, although both analyses succeed |
| Handlers.SubmitQueuesNothingEarly | bot/handlers/user_handlers.py:85-93 | a submission appends at most one job, never due before `now`, for the sender's chat |
| Handlers.ListReminder | bot/handlers/user_handlers.py:46-62 | the reply is the empty-list text iff the listing is empty; otherwise it is the header followed by the numbered lines |
| Handlers.NumberedLines | bot/handlers/user_handlers.py:55-56 | the `enumerate(reminders, 1)` loop builds exactly the numbered lines of the whole listing |
| Handlers.ListLinesAppend | bot/handlers/user_handlers.py:55-56 | listing two parts one after the other continues the numbering across the boundary |
| Handlers.ListShowsEntry | bot/handlers/user_handlers.py:55-56 | line `k` of the listing shows the `k`-th entry's number, text and `str()` of its datetime, between the lines before and after it |
| Handlers.HeaderIsNotEmptyReply | bot/handlers/user_handlers.py:47-62 | a non-empty listing can never be mistaken for the empty-list reply |
| Handlers.DeleteByPosition | bot/handlers/user_handlers.py:113-127 | the reply is the bad-number text iff the second word is missing, not an integer or outside `1..len(list)`, and then the store is unchanged; otherwise exactly the rows matching the listed id and sender are gone, with the success message; users, sequence and jobs never change; validity is kept |
| Handlers.ArgumentNumber | bot/handlers/user_handlers.py:115 | the number argument exists iff the message has a second word and that word is an integer literal; an all-digit word reads as its decimal value |
| Handlers.DeleteByPositionListing | bot/handlers/user_handlers.py:115-123 | deleting at position `n` removes exactly the `n`-th entry of the sender's listing and leaves every other user's listing alone |
| Handlers.DeleteCommandRoundTrip | bot/handlers/user_handlers.py:115 | the number shown in the listing, typed back after `/delete_reminder`, is read as that number |
| Handlers.DeleteListedReminder | bot/handlers/user_handlers.py:115-123 | typing back listing number `n` deletes the `n`-th line and moves the later ones up |
| Handlers.MatchEdit | bot/handlers/user_handlers.py:143-149 | a match has a non-empty digit group, a non-empty one-line text group and a date-shaped group, and the message starts with `/edit_reminder ` followed by the three groups separated by single spaces |
| Handlers.MatchEditOfParts | bot/handlers/user_handlers.py:143-149 | a message built from a number, a one-line text and a date-shaped string matches with exactly those three groups, even when the text itself contains dates |
| Handlers.EditCommandRoundTrip | bot/handlers/user_handlers.py:143-149 | a typed-back listing number, one-line text and rendered date match with exactly those parts |
| Handlers.EditRequest | bot/handlers/user_handlers.py:143-151 | the parse succeeds iff the pattern matches and `strptime` accepts the date group; the number, text and time are those of the groups |
| Handlers.EditCommandRequest | bot/handlers/user_handlers.py:143-151 | the typed-back command is understood as exactly the number, text and time that produced it |
| Handlers.EditAt | bot/handlers/user_handlers.py:153-161 | the reply is the bad-edit text iff the number is outside `1..len(list)`, and then the store is unchanged; otherwise it is the update's success message and the row count is kept; users, sequence and jobs never change |
| Handlers.EditByPosition | bot/handlers/user_handlers.py:141-166 | the reply is the bad-edit text iff the command does not parse or the number is out of range, and then the store is unchanged; otherwise it is the success message; the job queue is never touched; validity is kept |
| Handlers.EditAtListing | bot/handlers/user_handlers.py:153-157 | editing at position `n` replaces text and time of exactly the `n`-th entry of the sender's listing, keeping its id and place, and leaves every other listing alone |
| Handlers.EditByPositionListing | bot/handlers/user_handlers.py:141-157 | the same for the command as the user types it |
| Handlers.EditListedReminder | bot/handlers/user_handlers.py:141-161 | typing back listing number `n` with a one-line text and a rendered date gives the success reply and changes exactly the `n`-th line to that text and time, in place, and no other user's listing |

## Left out

- The `while True` loop with `asyncio.sleep(60)` around the sweep, and the `asyncio.create_task(delete_expired_rows())` each accepted reminder spawns: timing and concurrency. One pass of the loop body is modelled (`SweepTick`).
- A connection that fails in the middle of the sweep's delete loop: `Conn` is one value per call, so a pass either runs completely or not at all.
- A handler whose database calls see different connection states: one `Conn` value covers a whole handler.
- The job broker's worker, `send_message` and job durability, which live in `bot/other_func/arq_func.py`. The queue is an append-only sequence of jobs, and a failing enqueue is the `queue` parameter of `Submit`.
- The internals of `periodparser.extract`: its result `(tokens, dates)` is an input of the analysers.
- The locale-dependent `%B` month name: it is a parameter of `AnalyzeHandlers`.
- `psycopg2` connection setup, commits and transactions: each statement takes effect on its own.
- The `id serial` column of `main_users`: nothing reads it.
- Sub-second precision of timestamps: the extractor's dates, `now` and `strptime` results are whole seconds here.
- `\d` and `int()` on non-ASCII Unicode digits, which Python also accepts: only ASCII digits are modelled.
- The generic `except Exception` replies for errors the model cannot produce: a failing `message.answer` in the handlers, and an exception inside `list_reminder`'s loop. The analysis-error reply after a failing enqueue is modelled.
- Editing a reminder does not reschedule or cancel the delivery job queued for it. The code does not do so either, and the model states that the job queue is unchanged.
- `main.py`, the command registration, the `/start` greeting text, the keyboards and the logger: transport, user interface and logging.
- Db.GetAllReminders: "in store order" assumes PostgreSQL returns rows in insertion order for a `SELECT` without `ORDER BY`, which the database does not guarantee. An `UPDATE` writes a new row version, so after an edit PostgreSQL usually lists the edited reminder elsewhere. The "keeps its place" statements of `Db.UpdateListed`, `Handlers.EditAtListing` and `Handlers.EditListedReminder` rest entirely on this assumption.
- Handlers.SubmitStoresWhatItQueues: holds only when `set_info_remind`'s second run of the date extractor agrees with the first. The extractor resolves relative phrases against the clock, and the model does not describe it, so agreement is a premise here. `Handlers.SubmitMayStoreAnotherTime` shows what happens without it.
- Handlers.EditRequest: `int()` on a digit group longer than 4300 characters raises `ValueError` on recent CPython; the model reads it as its value. Such a number is always out of range, so the reply is the same bad-edit text. `Handlers.ArgumentNumber` does the same for `/delete_reminder`, with the same bad-number reply either way.
- Calendar.ParseDateTime: Python's `strptime` also accepts fields without zero padding (`2024-1-5 1:2:3`); the model accepts only the padded 19-character shape, which is all the edit pattern ever passes it.
