# Ticket desk bot: a Dafny model of its ticket store and handler rules

The bot turns chat-platform form submissions into tickets kept in one SQLite
table, `tickets`. Privileged members can assign, delete and export tickets.
Anyone with access to a ticket's action panel can mark it completed. This
project models the following parts of the bot:

- **The ticket store** (`database.dfy`, module `Database`). The table is a
  class, `TicketTable`, that holds a sequence of `Ticket` rows in rowid order.
  The methods mirror `init_db`, `save_ticket`, `update_ticket`,
  `mark_ticket_completed`, `delete_ticket` and
  `export_ticket_performance_to_csv`. Two pure functions give the meaning of
  the SQL statements: `UpdateWhere` (UPDATE ... WHERE thread_id = ?) and
  `DeleteWhere` (DELETE ... WHERE thread_id = ?). `thread_id` is not a unique
  column, so every keyed operation acts on all matching rows, and the model
  allows duplicates. Timestamps are integer seconds from an abstract clock;
  the handlers pass them in as `now`. The rowid counter (`nextId`) and the
  ghost set of every rowid ever issued model SQLite's AUTOINCREMENT: ids are
  never reused, even after a delete.
- **The handlers' decision rules** (`bot_rules.dfy`, module `BotRules`):
  - the privileged-role gate;
  - the team-mention lookup;
  - the `DD-MM-YYYY` deadline check and its `DD Mon YYYY` reformat;
  - the completed-title rewrite;
  - the `ticket-NNNN | title` thread name.
- **The handlers themselves** (`bot.dfy`, module `BotHandlers`). The `Bot`
  class holds the process-wide ticket counter and the store. Each handler
  either returns early after a guard or calls the store. It also returns the
  platform calls it makes, in order, as a sequence of `Action`s, so the
  contracts state which store call happens under which guard and what comes
  before or after it.
- **Decimal helpers** (`text.dfy`, module `Text`): decimal rendering and
  reading, Python's `startswith` and slicing, and splitting on a separator.

Behaviour of the code that the model keeps on purpose:

- A repeated completion rewrites `completed_at` (`CompleteTwice`). It is not
  set only once.
- Update, complete and delete act on every row with the thread id, not on a
  single row.
- The deadline gate accepts one-digit day and month fields, because Python's
  `%d` and `%m` do (`SingleDigitFields`).
- The store does not require title, submitter or thread id to be non-empty.

## Model

| member | source | states |
|---|---|---|
| `Database.OrEmpty` | database.py:37-39 | `data.get(key, "")`: an absent value reads as "", a present one as itself |
| `Database.NewTicket` | database.py:28-45 | the inserted row has status "open", no completion time, creation time `now`, and the input's title, description, submitter and thread id; a present assigned team, priority or deadline is stored as given, an absent one as "" |
| `Database.TicketTable.SaveTicket` | database.py:28-47 | appends exactly that one row under the next rowid; earlier rows are unchanged; the new id is greater than every id ever issued, deleted ones included; the table invariant is kept |
| `Database.TicketTable.constructor` | database.py:5-8 | the database file as `connect` first opens it: no `tickets` table, no rows, no rowid issued yet |
| `Database.TicketTable.InitDb` | database.py:7-26 | the table exists afterwards; existing rows and the rowid counter are untouched, so repeating it changes nothing |
| `Database.Apply` | database.py:52-56 | an assignment changes only team, priority and deadline; a completion changes only status (to "completed") and completion time; id, title, description, submitter, thread id and creation time never change; the lifecycle invariant is kept |
| `Database.UpdateWhere` | database.py:52-56 | an UPDATE keeps the number of rows |
| `Database.UpdateWhereAt` | database.py:52-56 | row by row, a row whose thread id matches gets the change and every other row is unchanged |
| `Database.UpdateWhereNoMatch` | database.py:55 | an UPDATE whose thread id matches no row leaves the table unchanged |
| `Database.TicketTable.UpdateTicket` | database.py:49-58 | the new table is the old one with team, priority and deadline set on exactly the matching rows; same length; unchanged when no row has the thread id |
| `Database.TicketTable.MarkTicketCompleted` | database.py:60-69 | the new table is the old one with status "completed" and completion time `now` on exactly the matching rows; unchanged when no row has the thread id |
| `Database.CompleteTwice` | database.py:63-67 | completing twice equals completing once at the later time: the status stays "completed" and only the completion time is rewritten |
| `Database.CompletedNotBeforeCreated` | database.py:43-44 | if the clock has not gone back past a matching row's creation, that row's completion time is not before its creation time |
| `Database.CountWhereZero` | database.py:55 | the WHERE clause counts no row exactly when no row has the thread id |
| `Database.DeleteWhere` | database.py:74 | a DELETE shrinks the table by exactly the number of rows with that thread id |
| `Database.DeleteWhereMembers` | database.py:74 | a row survives a DELETE exactly when it was in the table and has another thread id |
| `Database.DeleteWhereAppend` | database.py:74 | DELETE acts on each part of the table separately, so surviving rows keep their original order |
| `Database.DeleteWhereNoMatch` | database.py:74 | deleting a thread id no row has leaves the table unchanged |
| `Database.DeleteWhereIdempotent` | database.py:74 | deleting the same thread id again changes nothing more |
| `Database.DeleteWhereKeepsOrder` | database.py:12 | a DELETE keeps rowids ascending along the table |
| `Database.TicketTable.DeleteTicket` | database.py:71-76 | the new table is the old one without the thread's rows, in order; it shrinks by their count; unchanged when no row has the thread id |
| `Database.StampCell` | database.py:92 | a missing timestamp is written as an empty field, a present one as itself |
| `Database.TimeTaken` | database.py:89-91 | the time taken is empty exactly when either timestamp is missing; otherwise it is (completed - created) seconds / 3600 hours |
| `Database.TwoAndAHalfHours` | database.py:91 | a ticket completed 9000 seconds after creation took 2.5 hours |
| `Database.ReportLine` | database.py:81-92 | each data line is title, assigned team, submitter, status, created, completed, then the time taken |
| `Database.Report` | database.py:87-92 | the report is the header line followed by exactly one line per row, in table order |
| `Database.TicketTable.ExportTicketPerformance` | database.py:78-92 | the export loop yields the header and then one line per stored row in table order; this is the report of the table |
| `BotRules.HasPmRole` | bot.py:47 | the gate passes exactly when some role of the actor is one of the privileged role ids |
| `BotRules.Mention` | bot.py:63 | a known team gets its configured mention; the mention is empty exactly when the team is unknown |
| `BotRules.ParseDeadline` | bot.py:56 | an accepted deadline is an existing calendar date (years 1 to 9999, Gregorian month lengths) |
| `BotRules.ParseDeadlineShape` | bot.py:56 | an accepted text is exactly a day field, '-', a month field of one or two digits, '-' and a four-digit year, and the date read is those fields' values; text of any other shape is rejected |
| `BotRules.ParseFields` | bot.py:56 | the gate reads exactly three '-'-separated fields (a day of one or two digits, or a space and a digit; a month of one or two digits; a year of four digits) and accepts them when they name an existing date |
| `BotRules.MalformedDeadlines` | bot.py:55-59 | "2025-04-25", "25/04/2025" and "25-04-2025 " (trailing space) are rejected |
| `BotRules.ParseNumericText` | bot.py:56 | every existing date written DD-MM-YYYY is accepted and read back as itself |
| `BotRules.FormatDate` | bot.py:56 | the stored deadline has 11 characters: a two-digit day, a space, the month's three-letter abbreviation, a space and a four-digit year, and these digits denote the date's day and year |
| `BotRules.FormatDateInjective` | bot.py:56 | different dates are stored as different deadline texts |
| `BotRules.ReformatDeadline` | bot.py:55-59 | a deadline is stored exactly when it parses, and it is stored as the reformatted date |
| `BotRules.PlaceholderDeadline` | bot.py:43 | "25-04-2025" is stored as "25 Apr 2025" |
| `BotRules.SingleDigitFields` | bot.py:56 | "5-4-2025" is accepted and stored as "05 Apr 2025" |
| `BotRules.DayPastMonthEnd` | bot.py:55-59 | "31-2-2025" and "29-02-2025" are rejected |
| `BotRules.LeapDay` | bot.py:56 | "29-02-2024" is accepted and stored as "29 Feb 2024" |
| `BotRules.NewTicketTitle` | bot.py:147 | a new ticket's panel title is the inbox emoji and a space, followed by "New Ticket: " and the title |
| `BotRules.CompletedTitle` | bot.py:93-94 | every rewritten title starts with "✅ Completed"; a title that already does is kept; a title starting with "📩" loses its first two characters before "✅ Completed Ticket: " is prefixed; any other title is kept whole after the prefix |
| `BotRules.CompletedTitleIdempotent` | bot.py:93-94 | rewriting an already rewritten title changes nothing |
| `BotRules.CompletedNewTicketTitle` | bot.py:94 | a new ticket's panel title "📩 New Ticket: T" becomes "✅ Completed Ticket: New Ticket: T" |
| `BotRules.ThreadName` | bot.py:141 | the thread name starts with "ticket-" |
| `BotRules.ThreadNameReadsBack` | bot.py:141 | after "ticket-" the thread name carries the counter in at least four digits, then a space, a vertical bar and a space, then the first 30 characters of the title, and both read back |
| `BotRules.ThreadNamesDistinct` | bot.py:141-142 | tickets submitted under different counter values get different thread names |
| `Text.DecimalDenotes` | bot.py:141 | `{n:04d}` gives only digits, at least four of them, denoting n, with no leading zero beyond the padding |
| `Text.Take` | bot.py:141 | `title[:30]` is a prefix of the title with min(30, length) characters |
| `Text.Drop` | bot.py:94 | `title[2:]` is what follows the first two characters, or empty for a shorter title |
| `Text.SplitJoin` | bot.py:56 | splitting the deadline text on '-' loses nothing: the fields joined by '-' give the text back |
| `BotHandlers.Bot.constructor` | bot.py:34 | the ticket counter starts at 1 |
| `BotHandlers.Bot.OnReady` | bot.py:181-186 | start-up creates the table if needed and leaves existing rows untouched |
| `BotHandlers.Bot.SubmitTicket` | bot.py:137-164 | the thread is named from the old counter; the counter grows by exactly 1; one open row is saved with empty team, priority and deadline under the new thread's id, and the rowid counter grows by 1 |
| `BotHandlers.Bot.PressUpdate` | bot.py:79-84 | only an actor with a privileged role gets the update form; anyone else is refused |
| `BotHandlers.Bot.SubmitUpdate` | bot.py:45-73 | without a privileged role, or with a deadline that does not parse, the handler returns early and the table is unchanged; otherwise the matching rows get the team, priority and reformatted deadline, and the store update is the last step |
| `BotHandlers.Bot.PressComplete` | bot.py:90-104 | no role check; for each archival outcome the exact sequence: retitle, reply, then the archival notice and archive, or the logged failure, and the store completion last; the matching rows are marked completed however archival went |
| `BotHandlers.Bot.PressDelete` | bot.py:110-120 | without a privileged role nothing is deleted; otherwise the thread's rows are deleted first, before the thread is archived and locked |
| `BotHandlers.Bot.ExportCommand` | bot.py:189-197 | only an actor with a privileged role gets the report, and it is the report of the whole table, with one line more than the table has rows |
| `BotHandlers.TwoSubmissions` | bot.py:138-142 | two submissions in a row advance the counter by 2 and get different thread names |

## Left out

- The chat platform SDK and everything asynchronous are not modelled: modals,
  buttons, views, embeds, thread creation, message sending and archival. A
  handler only records these calls as `Action`s. The id of a newly created
  thread is a parameter.
- Exceptions raised by platform calls are not modelled, except the caught
  exception on archival in `PressComplete`. The model assumes every other call
  succeeds, so it does not capture, for example, that a failed embed edit would
  stop the store update in the update form.
- `post_ticket_button` deletes the bot's earlier button messages from the
  channel history. The model records only the `RepostOpenButton` action.
- SQLite connections, commits, closes and storage faults are not modelled.
  This includes the "no such table" error an operation would raise before
  `init_db`: store methods require that the table exists, which start-up
  (bot.py:184) ensures. Rowid exhaustion at the 64-bit limit is not modelled.
- Wall-clock time and ISO-8601 text are not modelled. Timestamps are integer
  seconds passed in as `now`, and the report holds them as numbers, not as
  ISO-8601 strings.
- Database.TimeTaken: the report states the exact number of hours as a real.
  The source's float division and `round(..., 2)` are not modelled.
- The CSV writer's quoting and escaping, the output path and the file write
  are not modelled. The export returns the report's lines.
- BotRules.ParseDeadline: Python's `\d` also matches non-ASCII decimal digits.
  The model accepts only ASCII digits.
- BotRules.FormatDate pads years below 1000 to four digits. What `%Y` prints
  for such years depends on the platform's C library.
- Text-input length limits on the platform side are not modelled, for example
  the 1000-character description.
- Roles are reduced to their integer ids.
- test.py is not part of this model. It only sends one connectivity test
  message.
