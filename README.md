# Lead reconciliation loop — a Dafny model

The program polls an Airtable table of lead contacts. It keeps a local
SQLite table `leads(id, name, email, qualified, emailed)`, and it emails each
qualified lead once through Gmail. In every round of its `while True` loop it:

1. fetches all records;
2. inserts each record it has not seen (`INSERT OR IGNORE`), with:
   - a display name built from "First Name" and "Last Name";
   - the record's email;
   - the qualification verdict of `is_qualified`;
3. reads the stored `qualified` and `emailed` flags back;
4. sends an email when the row is qualified, not yet emailed, and the
   snapshot gives an address;
5. on a successful send, marks the row emailed and writes "Contacted On"
   back to Airtable.

It then commits and prints `New Leads` and `Emails Sent`.

The model has six modules:

- `Fields` (fields.dfy): record fields as `Null | Text(s)`, Python
  truthiness and `is_qualified`.
- `Naming` (naming.dfy): Python's `str.strip()`, the display name and its
  placeholder. `Strip` is proved to be the unique string that meets an
  independent definition of "stripped" (`IsTrimOf`).
- `Store` (store.dfy): the `leads` table as a map from record id to row.
  It holds the three SQL statements as functions on that map, plus a class
  `LeadTable` whose methods perform them in place.
- `Reconcile` (reconcile.dfy): one pass as a specification (`Step`, `Run`,
  `Cycle`). It also holds the imperative loop `RunCycle` and its body
  `ProcessRecord`, each proved equal to that specification.
- `CycleFacts` (cycle_facts.dfy): what one pass guarantees:
  - rows are never overwritten or deleted;
  - the counters mean what they print;
  - each lead gets at most one successful send, to the address in the
    snapshot;
  - a pass over a settled snapshot, such as the second poll of an unchanged
    table, does nothing.
- `Polling` (polling.dfy): any number of rounds, including failed fetches.
  It proves that no lead is ever emailed twice.
- `Scenarios` (scenarios.dfy): concrete passes.

External calls are modelled as oracles:

- `send(n, to)` is the result of the n-th `send_email` call of a pass.
- `annotate(n)` is false when the n-th `airtable.update` of the pass raises.

An exception from `airtable.update` is not caught by `send_email`'s handler,
which wraps only the Gmail call; `airtable.update` runs after `send_email`
has returned. The outer `except` catches it and skips the rest of the records and the
commit. The model ends the pass there (`aborted`). It keeps the table
changes already made, because the next round runs on the same SQLite
connection. A failed fetch is a round that changes nothing.

Three behaviours of the code are easy to miss; the model keeps them:

- A failing Airtable update is not a recoverable per-record error. It ends
  the pass.
- Qualification is fixed when a row is first inserted, because
  `INSERT OR IGNORE` never rewrites `qualified`.
- The send guard uses the email of the current snapshot, not the stored one.

## Model

| member | source | states |
|---|---|---|
| `Fields.IsQualified` | main.py:85-92 | A lead qualifies exactly when both `Email` and `Company` are non-empty strings. An empty or missing field disqualifies. |
| `Naming.TrimStartSpec` | main.py:111 | Leading-whitespace removal leaves a suffix that does not start with whitespace. Everything removed is Python whitespace. |
| `Naming.TrimEndSpec` | main.py:111 | Trailing-whitespace removal leaves a prefix that does not end with whitespace. Everything removed is Python whitespace. |
| `Naming.StripIsTrim` | main.py:111 | `strip()` yields a slice with only whitespace outside it and no whitespace at either of its ends. |
| `Naming.TrimIsUnique` | main.py:111 | At most one string meets that definition, so `strip()` is fully determined by it. |
| `Naming.StripEmptyIffBlank` | main.py:111 | `strip()` gives "" exactly when the string is all whitespace. |
| `Naming.DisplayName` | main.py:111 | The stored name is never empty. |
| `Naming.DisplayNameSpec` | main.py:109-111 | When both name parts are blank, the name is the placeholder "Kid Has No Name Apparently". Otherwise it is `first + " " + last` without its surrounding whitespace. |
| `Naming.DerivedName` | main.py:109-111 | The name derived from a record is never empty. |
| `Naming.DerivedNameSpec` | main.py:109-111 | A missing, None or empty name field counts as "". With both fields absent or blank the name is the placeholder; otherwise it is the joined name without its surrounding whitespace. |
| `Store.EvolvesTransitive` | main.py:117-123 | "A later state of the table", meaning no row is lost, the inserted columns never change and `emailed` never goes back to 0, is transitive. |
| `Store.InsertedSpec` | main.py:117-126 | `INSERT OR IGNORE` writes a row exactly when the id is absent, then reports `rowcount > 0`. It never overwrites an existing row, and the table gains only that id. |
| `Store.FlagsAfterInsert` | main.py:117-135 | Right after `INSERT OR IGNORE` the select always finds a row, so the `row and` test never fails. The row holds the flags of the row already stored, or else of the one just inserted, so the guard sees the qualification fixed at first insert. |
| `Store.MarkedEmailedSpec` | main.py:143-146 | The update sets only that row's `emailed` to true, keeps every other column and row, and is idempotent. |
| `Store.LeadTable.constructor` | main.py:40-53 | The table opens with the rows the database file already holds. |
| `Store.LeadTable.InsertOrIgnore` | main.py:117-126 | The in-place insert yields the table and row count of `Inserted`. |
| `Store.LeadTable.SelectFlags` | main.py:129-133 | The in-place select returns `Flags` of the current rows and changes nothing. |
| `Store.LeadTable.MarkEmailed` | main.py:143-146 | The in-place update leaves the rows of `MarkedEmailed`. |
| `Reconcile.RunCycle` | main.py:101-157 | The loop over the fetched records leaves the table, `new_count`, `email_count` and the early-exit outcome of the pass specification `Cycle`. |
| `Reconcile.ProcessRecord` | main.py:105-155 | One iteration (derive, insert, count, select, guarded send, mark, count, update) is exactly one `Step` of the specification. |
| `Reconcile.CycleSnoc` | main.py:105 | One more record is one more step, unless an exception has already ended the pass. |
| `Reconcile.AbortedIsFinal` | main.py:171-174 | After an exception ends the pass, the remaining records change nothing. |
| `CycleFacts.StepSendsIff` | main.py:135-140 | A record causes a `send_email` call exactly when its row is qualified and not yet emailed, and the snapshot has a non-empty email. The row is the stored one, or the one about to be inserted. The call goes to the snapshot's address. |
| `CycleFacts.AdmitTable` | main.py:117-126 | The insert step only adds this record's id. It never changes an existing row and counts the row exactly when it was new. |
| `CycleFacts.ContactTable` | main.py:128-147 | The send step keeps the keys, changes no other row and does not touch `new_count`. |
| `CycleFacts.ContactSend` | main.py:135-147 | The send step makes at most one call, for this lead, to the snapshot's non-empty address, and only while the row is unemailed. Only a successful call marks the row and counts it. |
| `CycleFacts.StepFacts` | main.py:105-155 | One full iteration has all of the above table, call and emailed-flag effects. |
| `CycleFacts.CycleNext` | main.py:105 | A one-record extension of a pass either leaves the ended pass unchanged or has the effects of one iteration. |
| `CycleFacts.CycleEvolves` | main.py:117-147 | Over a whole pass no row is overwritten or deleted, and no `emailed` flag is reset. |
| `CycleFacts.CycleKeys` | main.py:105-126 | A pass adds only ids from the snapshot. A pass that reaches the end stores a row for every id in the snapshot. |
| `CycleFacts.CycleUntouched` | main.py:105-147 | Rows of leads that are not in the snapshot stay exactly as they were. |
| `CycleFacts.CycleNewCount` | main.py:125-126 | `new_count` is the number of rows the pass inserted. |
| `CycleFacts.CycleCountsNewLeads` | main.py:102-126 | In a completed pass, the printed `New Leads` is the number of snapshot ids that had no row. |
| `CycleFacts.CycleEmailCount` | main.py:103-147 | `email_count` is the number of successful `send_email` calls. |
| `CycleFacts.CycleEmailBound` | main.py:142-147 | The printed `Emails Sent` is at most the number of distinct leads in the snapshot. |
| `CycleFacts.CycleSendsToSnapshotEmail` | main.py:112-137 | Every call goes to a non-empty address that the snapshot gives for that lead. A lead without an email is never contacted. |
| `CycleFacts.CycleEmailedOnlyBySend` | main.py:142-146 | A row becomes emailed during a pass only through a successful send to that lead. |
| `CycleFacts.CycleSendsOncePerLead` | main.py:135-146 | Within a pass no lead gets two successful sends, even when its id repeats. Every lead emailed was unemailed before the pass, is emailed after it, and is in the snapshot. |
| `CycleFacts.SentOnceStep` | main.py:135-146 | One step preserves the at-most-once invariant. |
| `CycleFacts.SettledEvolves` | main.py:135 | Once no record of a snapshot satisfies the send guard, later table states keep it that way. |
| `CycleFacts.SettledPassIsQuiet` | main.py:105-147 | A pass over a snapshot with nothing to do writes nothing, sends nothing, reports 0 and 0 and completes. |
| `CycleFacts.ReliableStep` | main.py:135-155 | With every call succeeding, one step leaves its own record not due an email and does not end the pass. |
| `CycleFacts.ReliablePassSettles` | main.py:105-155 | When every call succeeds, a pass completes and leaves its own snapshot with nothing to do. |
| `CycleFacts.SecondPassIsQuiet` | main.py:99-157 | After a pass where every call succeeded, polling the same snapshot again does nothing, whatever its own calls do. |
| `Polling.Serve` | main.py:99-174 | The polling loop leaves the table and prints the `Last Sync` / `Error` lines given by `Rounds`. |
| `Polling.AtMostOnceAcrossRounds` | main.py:99-174 | Over any sequence of rounds, including failed fetches, failed sends, failed updates and repeated snapshots, no lead is emailed twice. Every lead emailed was unemailed at the start and is marked now, and no row is overwritten. |
| `Polling.AppendSends` | main.py:135-157 | One pass's sends are disjoint from earlier ones, so the cross-round log stays free of duplicates. |
| `Scenarios.SingleRecord` | main.py:105 | A pass over one record is one step. |
| `Scenarios.AdaRow` | main.py:109-114 | A record with a first name, email and company is inserted under the stripped first name, qualified and not emailed. |
| `Scenarios.NewQualifiedLeadIsEmailed` | main.py:105-155 | A new qualified lead is inserted, emailed once and marked, and both counters are 1. |
| `Scenarios.SecondPollIsQuiet` | main.py:135 | An emailed lead is not contacted again. |
| `Scenarios.NoEmailNoSend` | main.py:109-135 | A lead without an email is stored unqualified under the placeholder name, and is never contacted. |
| `Scenarios.QualificationIsFrozen` | main.py:117-135 | A lead stored as unqualified is not contacted after its company is filled in. |
| `Scenarios.SnapshotAddressIsUsed` | main.py:112-137 | The email goes to the snapshot's address, not to the one stored at insert. |
| `Scenarios.FailedSendIsRetried` | main.py:142-147 | A failed send leaves the row unmarked, and the next poll sends. |
| `Scenarios.UpdateFailureEndsPass` | main.py:151-174 | A raising `airtable.update` ends the pass: the row stays marked and later records are not inserted. |

## Left out

- The Airtable and Gmail clients, MIME building and base64 encoding are left
  out. They are I/O; their outcomes are the `send` and `annotate` oracles.
- The subject and body text of the email, and the "Contacted On" date
  (`datetime.utcnow()`), are left out. The model records only the recipient
  and the lead.
- SQLite mechanics are left out: WAL mode, timeouts and when `commit`
  happens. The model treats every table change as durable the moment it is
  made. It does not capture the loss of uncommitted changes when the process
  dies before `conn.commit()` (main.py:157). That can happen in the middle
  of any pass, or after an aborted pass whose changes wait for a later
  commit. A lead whose `emailed = 1` is lost that way is emailed again
  after a restart.
- The model covers a finite prefix of `while True`. It leaves out the
  `time.sleep` pauses, the status output, `clear_output`, and the pandas
  query and display.
- Exceptions other than a failed fetch or a failed `airtable.update` are
  left out. Examples are a record without `id`, or a non-string
  name field that makes `+` raise.
- Field values are modelled only as None or string. Airtable's numbers,
  lists and attachments are left out, as is truthiness of non-strings.
- The `qualified` and `emailed` columns are booleans. The model does not
  cover values other than 0 and 1 written by some other program.
- The oracles are indexed by call number within a pass. The model does not
  relate one pass's failures to another's.

