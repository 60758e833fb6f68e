# Courier tracking dashboard: RCA remark ledger

This project models the core of a courier-operations dashboard. Operators record
root-cause-analysis (RCA) remarks against shipment tracking numbers (AWBs). The
system caps the remarks kept per AWB at 10: when an AWB has 10 or more remarks,
one of its oldest is dropped before each new one is written. An AWB at or under
10 remarks stays at or under 10, and one above 10 never grows. The new remark is
written at the label equal to the table's length, which after a drop can
overwrite a row of another AWB (see below). Around that ledger sit a
tracking lookup, a per-service-centre summary, a "never logged in" count,
a login check with an audit trail, a role-based menu and two user-table updates.

Modules, one per component:

- `Tables` (tables.dfy): the rows of the four tables (RCA remarks, deleted remarks,
  users, login audit) and the shared fields of the RCA form.
- `Ledger` (ledger.dfy): the RCA table as a map from pandas row label to record.
  It holds the capacity rule, the specification of one insertion (`Step`) and of
  a whole submit (`Run`, `ValidRun`), and the lemmas about them. The class
  `RcaLedger` holds the in-memory tables and has the methods `Existing`,
  `Insert` and `Submit`.
- `Tracking` (tracking.dfy): filtering the table by AWB and sorting newest first.
- `Dashboard` (dashboard.dfy): the SC-wise summary and the never-logged-in users.
- `Access` (access.dfy): the credential check, the login audit (class
  `LoginAudit`), the menu and the user table (class `UserDirectory`).

The table's length is the size of the map. Each submit iteration writes its
record at the label equal to that length, taken after any eviction. Take a table
freshly read from its file, with labels 0 .. n-1. Evicting a label other than
the last leaves label n-1 in use, so the write replaces the row stored there
(`StepOnContiguous`). That row may belong to another AWB, and the table then
shrinks by one. The overwrite repeats: once a label other than the last has been
evicted, the length stays at n-1 until another insertion evicts, and each
insertion in between that evicts nothing writes to label n-1 again. A further
eviction can shorten the table again and move the write label down. From such a point, a batch of
AWBs new to the table keeps only its last record. The model keeps this behaviour
exactly as the code has it.

Evicted remarks are not archived: the deleted-remarks table is only read
(app.py:117) and exported (app.py:242). Ties in `updated_on` have no defined
winner, because the sort that picks the row to evict (app.py:215) is not
stable. `Submit` may change only the RCA table, and an eviction may pick any
row of the AWB that has the least timestamp.

The clock is a parameter. `Submit` takes `clock: nat -> Time`, and `clock(i)` is
the time read for the i-th processed line. `Login` takes the instant `now`. The
signed-in identity comes in as parameters too: the session email, and the role
used for the menu.

## Model

| member | source | states |
|---|---|---|
| `Ledger.Processed` | app.py:210 | a submit processes min(number of lines, 10000) lines: never more than 10000 and never more than were pasted |
| `Ledger.Batch` | app.py:210-229 | one record per processed line, in line order, blank and repeated lines included; each carries its line as AWB, the shared form fields, the session email and the clock reading for that line |
| `Ledger.TableRows` | app.py:116 | a table read from file has labels exactly 0 .. n-1 and row i at label i |
| `Ledger.RcaLedger.Load` | app.py:116-117 | the ledger starts from the RCA table as read (labels 0 .. n-1) and the deleted-remarks table as read |
| `Ledger.RcaLedger.Existing` | app.py:211-218 | returns the number of rows with the AWB and the label of one whose `updated_on` is least among them; it returns None exactly when the AWB has no rows |
| `Ledger.RcaLedger.Insert` | app.py:211-229 | evicts nothing when the AWB has fewer than 10 rows; otherwise evicts exactly one label, which has that AWB and the least `updated_on` of its rows; the new table is the old one without that label, with the record at label len(table) |
| `Ledger.RcaLedger.Submit` | app.py:209-229 | performs one insertion per processed line, in order; each eviction is allowed by the capacity rule in the table the earlier lines left; the final table is the run of those insertions; the deleted-remarks table is unchanged |
| `Ledger.StepFrame` | app.py:219-229 | after an insertion, the record sits at label len(table) taken after the drop; every other row keeps its label and contents except the evicted one; no new label appears |
| `Ledger.StepOnContiguous` | app.py:219-229 | on labels 0 .. n-1: with no eviction the record gets the fresh label n and the table grows by one; evicting label n-1 puts the record back at n-1; evicting any other label overwrites the row at n-1 and the table shrinks by one |
| `Ledger.StepCount` | app.py:211-229 | one insertion never raises another AWB's count; it raises the inserted AWB's count by at most one when that AWB is under 10 rows, and not at all when it is at or over 10 |
| `Ledger.RunCountBound` | app.py:210-229 | after a submit, each AWB has at most the larger of its starting count and 10 rows; so an AWB already over the cap does not grow |
| `Ledger.SubmitKeepsCap` | app.py:210-229 | with the cap MAX_REMARKS_PER_AWB = 10 (app.py:21): if every AWB has at most 10 rows before a submit, every AWB has at most 10 after it |
| `Tracking.RowsOfExact` | app.py:182 | the AWB filter keeps every row of that AWB as many times as the table holds it, and no other row |
| `Tracking.SortNewestFirst` | app.py:188 | the result is a permutation of its input with `updated_on` non-increasing; ties come in no defined order |
| `Tracking.TrackAwb` | app.py:182-190 | gives "No RCA found" exactly when no row has the AWB; otherwise gives exactly that AWB's rows, newest first |
| `Tracking.TrackAll` | app.py:180-181 | gives one outcome per entered line, in order, blank and repeated lines included |
| `Dashboard.GroupsMeaning` | app.py:135-139 | the single grouping pass gives one group per distinct sc_name, holding that sc_name's row count and its set of distinct `updated_by` |
| `Dashboard.ScSummary` | app.py:134-140 | has one entry per distinct sc_name; RCA_Count is that sc_name's row count and Users_Active its number of distinct `updated_by` |
| `Dashboard.SummaryCountsSumToLength` | app.py:134-140 | the RCA_Count values of the summary sum to the number of rows in the table |
| `Dashboard.NeverLogged` | app.py:165-168 | holds exactly the user rows whose email is absent from the login audit, each as often as the user table holds it |
| `Access.FirstWithEmail` | app.py:71-73 | finds the first user row with the email, or None exactly when no row has it |
| `Access.CheckLogin` | app.py:71-77 | login succeeds iff some row has the entered email and the password equals that of the first such row; the session holds the entered email and that row's name and role |
| `Access.LoginAudit.Login` | app.py:70-85 | on success appends exactly one audit row (email, role, time); on failure leaves the audit unchanged |
| `Access.MenuFor` | app.py:97-113 | the menu is exactly Dashboard, Tracking, RCA Update when the role is exactly "user", and exactly those three followed by Download and Admin Panel for any other role |
| `Access.UserDirectory.CreateUser` | app.py:264-270 | appends exactly one row (email, role, name, password) after the existing rows |
| `Access.UserDirectory.ChangePassword` | app.py:277-280 | every row with the session email gets the new password; every other row is unchanged |
| `Access.PasswordChangeThenLogin` | app.py:278-280 | after the change, if the session email has a row, it logs in with a password exactly when that password is the new one; every other email logs in exactly as before |
| `Access.CreatedUserLogin` | app.py:265-270 | a user created with a new email logs in with its password and with no other; if the email already had a row, that earlier row still decides the login; every other email logs in exactly as before |

## Left out

- The Streamlit page itself is not modelled: widgets, sidebar, `st.rerun`, `st.stop`, session state and logout (app.py:24-27, 57-95, 285-288), and the sidebar radio widget (app.py:110-111, 113), whose choice of list `Access.MenuFor` models. Identity and role are parameters instead.
- Reading and writing the CSV and Excel files, and creating them, are I/O through pandas (app.py:11, 30-54, 79, 85, 231, 271, 281). The reads at app.py:116-118 are not modelled as I/O either: the model takes the files' contents as read (`Ledger.TableRows`, `Ledger.RcaLedger.Load`) and leaves writing them back out of scope.
- `Access.UserDirectory.CreateUser`: the row is written by position (app.py:265-270), so the model assumes users.xlsx has exactly the columns email, role, name, password, in that order. With another order the fields would land in the wrong columns; with another number of columns pandas raises a ValueError, and that error path is not modelled.
- Splitting the pasted text into lines (`splitlines`) is not modelled; the lines are the input.
- The model does not cover pandas type inference when a file is re-read. A purely numeric AWB column reads back as integers, which no longer equal the pasted strings, and empty cells read back as missing values, which grouping and counting skip. Every cell is modelled as the string that was written.
- The Excel export (app.py:239-250) is serialisation in a foreign library.
- The logo (app.py:61) is image I/O.
- The daily and monthly login charts (app.py:150-163) rest on pandas date and period conversion and on chart rendering.
- The dashboard metric tiles (app.py:124-128) are not modelled.
- The page-level role checks (app.py:147, 238, 255) are single comparisons that only choose what to render.
- `Dashboard.ScSummary`: the model does not keep the order of the summary rows. A pandas groupby sorts them by sc_name, and the map has no order. The `if not rca_df.empty` guard is also not modelled, because an empty table already gives an empty summary.
- `Tracking.SortNewestFirst`: pandas' default sort is not stable, so the contract does not fix the order of rows with equal timestamps.
- Password security, the plaintext comparison, is not a property of this model.
