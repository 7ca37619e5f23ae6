# Baby-shower organiser: the record store and its callers

The system is a Streamlit organiser for a baby shower ("chá de bebê"). Every
user has one row in a single Google Sheets worksheet, keyed by the
`username` column. That row holds the account (email, name, password hash),
the event (baby name, sex, date), the guest list, the checklist, the budget,
and four collections kept as encoded text: expenses, gifts, gift suggestions
and games.

`database.py` is the record store. Every operation reads the whole sheet,
finds the user's first row by username, and (for writes) edits the table it
read, then writes the whole table back. Two Streamlit front ends call it.
`app_principal_backup.py` is the main organiser: setup form, guests,
checklist, gifts and games. `app_cha_de_bebe_web.py` is the web variant:
a users dictionary, a custom registration form, an event gate and an event
form.

The model has these files:

- `cells.dfy`: sheet cells (`Text`, `Int`, and `Missing` for pandas' NaN) and
  Python truthiness.
- `codec.dfy`: the `,`/`;` list codecs, `str`/`int` on integers, and the
  checklist status codec.
- `tables.dfy`: a table as columns plus rows, and the pandas operations the
  store uses:
  - the first row matching a username;
  - `df.at` (it adds a missing column, NaN elsewhere);
  - `concat` of a one-row literal;
  - the upsert that every setter performs.
- `backend.dfy`: the worksheet as a class with two methods, read every
  record and replace everything.
- `database.dfy`: each store operation.
  - Every write is a function from the table read to an `Outcome`:
    `Failed` (the exception path before anything is written, returns False),
    `Unchanged` (returns True, nothing written), or `Written(table)`, the
    table the write builds.
  - `Commit` says what the sheet then holds. `update` sends the cells as
    JSON, which has no NaN, so a table holding NaN raises after `clear` has
    run: the call returns False and the sheet is left empty (`Wiped`). The
    sheet therefore never holds NaN.
  - Each write is also a method on the sheet, proved to agree with `Commit`
    of that function.
- `database_laws.dfy`: properties of the store:
  - read-back after each write that is stored;
  - which writes clear the sheet instead, with a concrete case in which the
    first budget saved deletes every account;
  - isolation of other users: a stored write leaves their rows, and so every
    read of them, unchanged;
  - one row per username;
  - accounts kept;
  - what a reset does;
  - the same laws for writes that fill NaN with `""` before the update,
    which never clear the sheet.
- `principal.dfy`: the caller-side edits of the main app. The checklist is a
  class whose task and status lists the page edits in place.
- `web.dfy`: registration, the users dictionary, the event gate and the
  event form of the web app, with two findings.

`database.py` is modelled as written, including the write that clears the
sheet (see "## Findings"). The code and its callers disagree in two places,
and both are modelled as the code behaves:

- The main app gates its dashboard on `setup_completo`, which
  `get_evento_atual` never returns (`Principal.SetupNeverComplete`).
- The setup form sends `nome_bebe_1`/`sexo_bebe_1`, while `set_evento_atual`
  reads `nome_bebe`/`sexo_bebe` (`Principal.SetupLosesBabyName`).

## Model

| member | source | states |
|---|---|---|
| Codec.Split | database.py:92 | `str.split(sep)` always yields at least one piece, and no piece holds the separator |
| Codec.JoinSplit | database.py:92 | joining the pieces of a split with the separator gives back the original text |
| Codec.SplitJoin | database.py:102 | splitting a join of a non-empty, separator-free list gives back the list |
| Codec.SplitLength | database.py:92 | a split yields one piece more than the text has separators |
| Codec.JoinIsEmpty | database.py:102 | a join is empty exactly for the empty list and the list holding only the empty string |
| Codec.ListRoundTrip | database.py:90-92 | writing a list and reading it back returns it exactly when it is not `[""]` and no element holds the separator (both directions) |
| Codec.IntToString | database.py:131 | `str(n)` of an integer is non-empty and never holds `;` |
| Codec.IntRoundTrip | database.py:122 | `int(str(n)) == n` for every integer, negative ones included |
| Codec.ParseAllStrs | database.py:122 | `map(int, map(str, xs))` succeeds and returns `xs` |
| Codec.StatusRoundTrip | database.py:131 | every status list survives `';'.join(map(str, ...))` followed by the split-and-`int` read, the empty list included |
| Tables.AsRead | database.py:18-19 | a sheet with data reads as itself; a sheet without data rows reads as a table with no columns |
| Tables.FirstMatch | database.py:58 | the index found matches the username and no earlier row does; `None` means no row matches |
| Tables.SetCell | database.py:73 | `df.at[i, col] = v` sets that cell, keeps every other cell, and adds a missing column with NaN in the other rows |
| Tables.AppendRow | database.py:70 | `concat` of a row literal appends one row holding the literal's values and NaN elsewhere, with new columns last; earlier rows keep their cells and get NaN in new columns |
| Tables.Upsert | database.py:101-108 | the lookup-else-append of every setter gives a well-formed table that never loses rows |
| Tables.UpsertExisting | database.py:106-108 | with a matching row: same row count, exactly the assigned cells of the first match change, every other cell keeps its value, and added columns are NaN in the other rows |
| Tables.UpsertNew | database.py:103-105 | with no matching row: exactly one row is appended at the end holding the literal; every earlier cell is kept |
| Tables.UpsertKeepsUniqueUsers | database.py:101-108 | on a table with at most one row per username, an upsert keeps it that way, and afterwards the user has a row |
| Tables.UpsertFinds | database.py:101-108 | after an upsert the user's search finds the row it found before, or the appended last row when there was none |
| Tables.UpsertKeepsUsernames | database.py:101-108 | an upsert that assigns no `username` cell keeps the username of every existing row |
| Tables.UpsertIsolation | database.py:101-108 | an upsert for one user leaves every other user's search result and row cells as they were |
| Tables.UpsertReadBack | database.py:132-139 | after an upsert the user's row holds each value assigned, whether the row was new or existing |
| Tables.AppendRowFinds | database.py:103-105 | after appending a row for a user without one, that user's search finds the new last row |
| Tables.AppendRowIsolation | database.py:103-105 | appending a row for a new user changes no other user's record |
| Tables.SameRecordNewColumn | database.py:73 | when a write adds a column, another user's kept row holds NaN in it |
| Tables.UpsertNanFree | database.py:101-108 | on a table without NaN, the upsert holds no NaN exactly when `UpsertNoNaN` holds. For an existing row: the values are not NaN, and they name only existing columns unless the table has one row. For a new row: the values are not NaN, they name every column, and they add no column when other rows exist |
| Tables.UpsertUsernamesKnown | database.py:101-108 | an upsert of a table without NaN that has a `username` column leaves a row, and no username cell that is NaN |
| Tables.SameRecordExact | database.py:101-108 | another user's kept record, in a table without NaN, is exactly the row it was |
| Tables.FillNaN | database.py:109-110 | the corrected step before the update, `df.fillna("")`: no NaN is left, the shape and every other cell are kept, and each NaN becomes `""` |
| Tables.FillNaNNanFree | database.py:109-110 | filling a table without NaN changes nothing |
| Tables.FillNaNMatches | database.py:101-110 | filling keeps every username search when no username cell is NaN |
| Tables.FilledAppend | database.py:103-110 | appending a new user's row without NaN to a table without NaN, then filling: old cells are kept, the cells the append added are `""`, the new row holds its values, the new user is found last and every other user where they were |
| Tables.Project | database.py:22 | `df[cols]` has exactly those columns and the same cells in every row |
| Backend.Sheet.GetAllRecords | database.py:18-19 | the read returns the sheet's table as read (no columns when there are no data rows) and changes nothing |
| Backend.Sheet.Overwrite | database.py:29-30 | `clear` then `update`: a table without NaN is stored exactly and the call succeeds; a table with NaN fails after the clear and leaves the sheet empty |
| Database.FetchAllUsers | database.py:16-25 | the result always has exactly the four identity columns; it holds the identity cells of every row when the sheet has all four columns, and no rows otherwise |
| Database.UpdateUsers | database.py:27-34 | True exactly when the users table holds no NaN, and the sheet then holds that table; otherwise False and an empty sheet |
| Database.UpsertStep | database.py:101-108 | the lookup-and-edit step of every setter computes the upsert: the row literal appended when the user has no row, the assignments on the first match otherwise |
| Database.Filled | database.py:109-110 | a write that fills NaN with `""` before the update is always stored as built, and builds a table exactly when the write as written does |
| Database.GetEventoAtual | database.py:36-50 | `{}` exactly when there is no `username` column or no matching row; otherwise exactly the keys `nome_bebe`, `sexo_bebe`, `data_cha`, each the row's cell or `""` |
| Database.SetEventoAtual | database.py:52-82 | returns True exactly when the committed `EventoWrite` succeeds, and leaves the sheet as it prescribes: an event header for an empty sheet, then an upsert of the three event fields, stored, or an empty sheet when that table holds NaN |
| Database.DecodeTextCell | database.py:90-92 | a false cell reads as `[]`, text is split, and any other true cell (NaN, a number) raises |
| Database.DecodeStatusCell | database.py:122 | a false cell reads as `[]`, text goes through the split-and-`int` read, and any other true cell raises |
| Database.GetConvidados | database.py:86-94 | `[]` without a matching row or a `convidados` column; otherwise the cell's text split on `,` (`[]` for empty text or a cell that raises) |
| Database.SetConvidados | database.py:96-113 | the method agrees with the committed `ConvidadosWrite`: a guest header for an empty sheet, then an upsert of the `,`-joined list; False when there is no `username` column, and False with an empty sheet when the table built holds NaN |
| Database.GetChecklist | database.py:116-125 | both lists empty without a matching row or either column, or when either cell fails to decode; otherwise the decoded tasks and statuses |
| Database.SetChecklist | database.py:127-144 | the method agrees with the committed `ChecklistWrite`: an upsert of the `;`-joined tasks and statuses; False on a sheet without a `username` column, including an empty one, and False with an empty sheet when the table built holds NaN |
| Database.GetOrcamento | database.py:147-153 | `Some(cell)` exactly when the user's budget cell exists and is true; `None` stands for the `0.0` default |
| Database.SetOrcamento | database.py:155-169 | the method agrees with the committed `OrcamentoWrite`: an upsert of the budget cell; False without a `username` column, and False with an empty sheet when the table built holds NaN |
| Database.GetLedger | database.py:171-179 | the encoded text of the user's cell exactly when it is non-empty text; otherwise the empty default |
| Database.SetLedger | database.py:181-196 | the method agrees with the committed `LedgerWrite` for each of the four encoded collections: an upsert of the encoded text, or an empty sheet when the table built holds NaN |
| Database.ClearRow | database.py:290-292 | the column loop blanks every non-identity cell of row `i` (`""` for a text column, `0` otherwise), keeps the identity cells, and leaves every other row alone |
| Database.ResetAllDataForUser | database.py:283-297 | the method agrees with the committed `ResetWrite`: nothing written (True) for an unknown user, and False without a `username` column |
| DatabaseLaws.GuestsRoundTrip | database.py:96-113 | `set_convidados` fails exactly on a non-empty sheet without `username`; otherwise it clears the sheet or stores a table from which the guests read back are the list written exactly when it is not `[""]` and has no `,` |
| DatabaseLaws.ChecklistRoundTrip | database.py:127-144 | `set_checklist` fails exactly on a sheet without data or without `username`; otherwise it clears the sheet or stores a table from which the statuses read back are those written, and the tasks read back are those written exactly when the list is not `[""]` and has no `;` |
| DatabaseLaws.BudgetRoundTrip | database.py:155-169 | `set_orcamento` fails exactly on a sheet without data or without `username`; otherwise it clears the sheet or stores a table from which the budget read back is the one written, or the default when it is false |
| DatabaseLaws.LedgerRoundTrip | database.py:181-196 | `set_gastos` and its siblings fail exactly on a sheet without data or without `username`; otherwise they clear the sheet or store a table from which the lookup returns the encoded text written, or the default for empty text |
| DatabaseLaws.EventRoundTrip | database.py:52-82 | `set_evento_atual` fails exactly on a non-empty sheet without `username`; otherwise it clears the sheet or stores a table from which `get_evento_atual` returns exactly the three fields sent, `""` for each one missing |
| DatabaseLaws.EventReadBack | database.py:58-75 | on the table `set_evento_atual` builds, for an existing row or a new one, the event read is exactly the three fields sent (whether that table is stored is `DatabaseLaws.EventRoundTrip`'s part) |
| DatabaseLaws.EventCreatesBlankAccount | database.py:60-70 | for a new user, a stored `set_evento_atual` creates the user's row with all identity columns and empty email, name and password |
| DatabaseLaws.ResetStored | database.py:283-297 | on a sheet without NaN, the table a reset builds is always stored |
| DatabaseLaws.WriteWipesExactly | database.py:101-110 | on a sheet without NaN, a setter clears the sheet exactly when the sheet has a `username` column and the upsert fails `UpsertNoNaN` (a column added while other rows exist, a new row that does not name every column, or a NaN value) |
| DatabaseLaws.FirstBudgetWipes | database.py:155-169 | the first budget saved, by a user who has a row, on a sheet of two or more rows without an `orcamento` column, clears the sheet |
| DatabaseLaws.BudgetWipesAccounts | database.py:162-167 | concretely, with users "v" and "u" and only the identity columns, "u" saving a budget of 100 leaves an empty sheet, where two users were read before and none after |
| DatabaseLaws.WritesKeepUniqueUsers | database.py:58-75 | no stored write (any setter or the reset) creates a second row for a username |
| DatabaseLaws.BuiltTablesKeepRecords | database.py:101-108 | the table a write for `u` builds keeps another user's search result and row cells, with NaN in any column the write added |
| DatabaseLaws.WritesIsolateUsers | database.py:101-110 | a stored write for `u` leaves another user's search result unchanged and their row exactly as it was |
| DatabaseLaws.ExactRecordReads | database.py:36-50 | a record found at the same row and unchanged there reads the same guests, checklist, budget, encoded collections and event |
| DatabaseLaws.WritesKeepOthersReads | database.py:86-179 | so after a stored write for `u`, every read of another user returns what it returned before |
| DatabaseLaws.UpsertKeepsAccountCells | database.py:101-108 | an upsert-based write leaves a row and no NaN username, and, when the sheet has the identity columns, keeps every existing row and its identity cells |
| DatabaseLaws.ResetKeepsAccountCells | database.py:290-292 | the same holds for the table a reset builds |
| DatabaseLaws.BuiltKeepsAccountCells | database.py:101-108 | the same holds for every write |
| DatabaseLaws.WritesKeepAccounts | database.py:16-22 | after any stored write, the users table read before is a prefix of the users table read after |
| DatabaseLaws.ResetKeepsUsernames | database.py:290-292 | a reset keeps the row count, the header, every other row, every identity cell, and so every username search |
| DatabaseLaws.ResetClearsRecord | database.py:289-292 | after a reset, guests, checklist, budget and encoded collections read as their defaults, and every event field is false |
| DatabaseLaws.ResetKeepsAccounts | database.py:291 | a reset leaves the users table exactly as it was |
| DatabaseLaws.ResetIdempotent | database.py:283-297 | resetting the table a reset wrote writes the same table again |
| DatabaseLaws.FilledRecordReads | database.py:36-50 | a record found at the same row that keeps every cell and holds `""` in every cell it gained reads the same guests, budget, encoded collections and event, and the same checklist unless the sheet had one checklist column without the other |
| DatabaseLaws.FilledWritesKeepRecords | database.py:109-110 | with `fillna("")` before the update, no write clears the sheet, and another user's record keeps its row and every cell, gaining only `""` cells |
| DatabaseLaws.FilledWritesIsolateUsers | database.py:109-110 | with `fillna("")`, every read of another user returns what it returned before, the checklist too unless the sheet had one checklist column without the other |
| DatabaseLaws.FilledWritesKeepAccounts | database.py:109-110 | with `fillna("")`, no write clears the sheet, and the users table read before is a prefix of the one read after |
| Principal.SetupData | app_principal_backup.py:100-112 | the form is rejected exactly when the first name is empty; otherwise the record has exactly the seven keys sent, `setup_completo` is `"Sim"`, and `data_cha` is `""` without a date |
| Principal.SubmitSetup | app_principal_backup.py:100-113 | nothing is written on rejection; otherwise the record goes through `set_evento_atual`, and the call succeeds exactly when that committed write does |
| Principal.SetupNeverComplete | app_principal_backup.py:68-72 | on any sheet, the record read never passes the `setup_completo` gate |
| Principal.SetupLosesBabyName | app_principal_backup.py:104-113 | after a completed setup whose table is stored, the event reads back with an empty baby name and sex, and only the date arrives |
| Principal.AddGuest | app_principal_backup.py:162-168 | a guest is saved exactly when the name is non-empty and not yet listed, and the list saved is the old list with the name appended; a listed name warns, and an empty one asks for a name |
| Principal.SubmitGuest | app_principal_backup.py:160-168 | reads the guests, applies that decision, and writes through `set_convidados` only on a save; it succeeds exactly when that committed write does |
| Principal.GuestsReadNormal | database.py:89-92 | a guest list read from the store is never `[""]` and has no `,` in a name |
| Principal.AddGuestReadBack | app_principal_backup.py:163-164 | after a saved guest whose table is stored, the list read back is the old list plus the name exactly when the name has no `,` |
| Principal.PendingIsOpenTasks | app_principal_backup.py:142-143 | with one 0/1 status per task, `len(tarefas) - sum(status)` is the number of open tasks |
| Principal.Flip | app_principal_backup.py:194 | a click gives 0 or 1: 0 exactly when the old status was true |
| Principal.Checklist.AddTask | app_principal_backup.py:183-187 | a task is added exactly when it is non-empty and not yet listed; it is appended with status 0, otherwise nothing changes; lists in step stay in step |
| Principal.Checklist.Toggle | app_principal_backup.py:192-195 | only `status[i]` flips and `tasks` is unchanged; an index past the statuses changes nothing |
| Principal.Checklist.Delete | app_principal_backup.py:192-200 | index `i` is removed from both lists; the button is drawn only after line 192 has read `status[i]`, so that status exists; lists in step stay in step |
| Principal.PendingAfterAdd | app_principal_backup.py:185-186 | adding a task raises the pending count by one |
| Principal.PendingAfterToggle | app_principal_backup.py:194 | a toggle keeps statuses 0/1 and moves the pending count by one in the right direction |
| Principal.PendingAfterDelete | app_principal_backup.py:198-199 | deleting a task lowers the pending count by one exactly when that task was open |
| Principal.RegisterGift | app_principal_backup.py:244-251 | a gift is rejected exactly when a field is empty; otherwise the gift table gains one row |
| Principal.RegisteredGiftIsLast | app_principal_backup.py:246-247 | the new gift is the last row, names the guest and the gift, has `agradecimento_enviado` `"Não"`, and earlier gifts keep their cells |
| Principal.DropGame | app_principal_backup.py:316-318 | removing game `i` keeps the header and the order of the other rows and shortens the table by one |
| Principal.DropGameRemovesOne | app_principal_backup.py:317 | the result is well formed and is the old table minus exactly one occurrence of that row |
| Web.InsertValid | app_cha_de_bebe_web.py:70-74 | `d[k] = v` keeps the dictionary valid; a new key goes last, and the other keys keep their place and value |
| Web.BuildUsersDict | app_cha_de_bebe_web.py:18-27 | the loop over the users table builds a valid dictionary, the one the rows define in order |
| Web.DictOfKeys | app_cha_de_bebe_web.py:21-27 | the dictionary holds exactly the usernames of the rows |
| Web.DictOfLast | app_cha_de_bebe_web.py:22-27 | each username maps to the details of the last row holding it |
| Web.CheckRegistration | app_cha_de_bebe_web.py:58-74 | the checks run in order: an empty field first, then a password mismatch, then an existing username (each in both directions); success inserts the hashed details |
| Web.RegistrationAddsOneUser | app_cha_de_bebe_web.py:70-74 | a successful registration appends exactly one key, and every existing user keeps name, email and password |
| Web.UsersFrame | app_cha_de_bebe_web.py:77-82 | the rebuilt users table has the four identity columns and one row per dictionary entry |
| Web.UsersTable | app_cha_de_bebe_web.py:77-82 | the loop builds that table, with `username` set to each entry's key |
| Web.UsersFrameRoundTrip | app_cha_de_bebe_web.py:77-83 | fetching the users from the rebuilt table gives that table back, and rebuilding the dictionary from it gives the dictionary back |
| Web.DictOfNanFree | app_cha_de_bebe_web.py:18-27 | the dictionary built from a users table without NaN holds no NaN key or detail |
| Web.UsersFrameNanFree | app_cha_de_bebe_web.py:77-82 | the users table rebuilt from such a dictionary holds no NaN, so `update_users` stores it |
| Web.RegisteredStored | app_cha_de_bebe_web.py:70-83 | a successful registration against the users of a sheet without NaN builds a valid dictionary whose table holds no NaN |
| Web.Register | app_cha_de_bebe_web.py:58-89 | the handler as written: nothing is written on a failed check; on success the call returns True and the sheet becomes the users table alone |
| Web.RegistrationWipesData | app_cha_de_bebe_web.py:81-83 | as written, after a registration every user's guests, checklist, budget and encoded collections read as empty |
| Web.RegistrationLosesGuests | app_cha_de_bebe_web.py:83 | concretely, user "ana" with guest "Bia" has no guests once "caio" registers |
| Web.NewUserRow | app_cha_de_bebe_web.py:70-74 | the corrected new row sets exactly the four identity columns |
| Web.RegisterKeepingData | app_cha_de_bebe_web.py:77-83 | corrected handler: on success the new user's row is appended to the whole table, NaN is filled with `""`, and the call returns True |
| Web.RegisteredHasNoRow | app_cha_de_bebe_web.py:63 | on a sheet with the identity columns, a username the checks accept has no row yet |
| Web.RegisterKeepingDataIsolates | app_cha_de_bebe_web.py:77-83 | corrected handler: every other user's guests, budget, encoded collections and event read as before, and the checklist too unless the sheet had one checklist column without the other; the new user is found last with the submitted details |
| Web.RegisterKeepingDataAddsUser | app_cha_de_bebe_web.py:77-83 | corrected handler: the users read afterwards are the users read before, then the new user with the submitted details |
| Web.GateOnStore | app_cha_de_bebe_web.py:109 | the event asks for configuration exactly when the user has no row or the row's `nome_bebe` is absent or false |
| Web.TrimStart | app_cha_de_bebe_web.py:122 | leading whitespace (Python's `isspace` set) is removed, giving a suffix of the input |
| Web.TrimEnd | app_cha_de_bebe_web.py:122 | trailing whitespace is removed, giving a prefix of the input |
| Web.StripEmpty | app_cha_de_bebe_web.py:122 | `strip()` gives `""` exactly for all-whitespace text, and otherwise text that starts and ends with a non-space |
| Web.WebEventData | app_cha_de_bebe_web.py:117-125 | as written: rejected exactly when the raw name is empty; the record has the three keys, the stripped name, and `data_cha` `""` when the date is undefined |
| Web.WebEventDataChecked | app_cha_de_bebe_web.py:118-125 | corrected: rejected exactly when the stripped name is empty |
| Web.SubmitEvent | app_cha_de_bebe_web.py:117-126 | as written, nothing is written on rejection; otherwise the record goes through `set_evento_atual`, and the call succeeds exactly when that committed write does |
| Web.SubmitEventChecked | app_cha_de_bebe_web.py:117-126 | the corrected submit, with the same write path |
| Web.WhitespaceNameStaysUnconfigured | app_cha_de_bebe_web.py:118-122 | as written, a whitespace-only name passes the check, but the stored event still fails the gate |
| Web.NamedEventIsConfigured | app_cha_de_bebe_web.py:109 | storing event data with a non-empty name makes the gate pass, and that name reads back |
| Web.CheckedEventIsConfigured | app_cha_de_bebe_web.py:118-126 | corrected: every stored event passes the gate with the stripped name |

## Left out

- Connection setup: credentials, gspread and opening the worksheet (database.py:3-14) are I/O. The sheet is the in-memory `Backend.Sheet`.
- Failures of the backend itself (network errors inside `get_all_records`, `clear` or `update`) are not modelled. An `Outcome` is `Failed` only where the code raises on the data it read, and is committed as `Wiped` only where `update` raises on a NaN of the table built.
- gspread's type conversion on read is not modelled. A cell reads back as the value written. The round trips depend on this. In `DatabaseLaws.ChecklistRoundTrip`, a single status written as `"0"`, or a task list of digits, would read back as a number. `DatabaseLaws.BudgetRoundTrip` would read a numeric budget back as a number, and `DatabaseLaws.EventRoundTrip` would do the same for a numeric field (and likewise for `Principal.AddGuestReadBack`).
- The Streamlit UI: widgets, messages, reruns, the sidebar, logout, and the dashboard titles built from the record (app_principal_backup.py:129-132, app_cha_de_bebe_web.py:131-132).
- The login block of app_principal_backup.py (lines 24-65): its users dictionary from `set_index(...).to_dict('index')`, `Authenticate`, `login` and `register_user` belong to the authentication library. The web app's dictionary loop is modelled instead (`Web.BuildUsersDict`).
- The budget page (app_principal_backup.py:205-210) and the dashboard budget summary (lines 144-155) compare and divide floats. Only the store calls `SetOrcamento` and `GetOrcamento` are modelled.
- The gift editor's save (app_principal_backup.py:257-261) writes a table edited in a widget. It is a plain `SetLedger` call with text the model does not see.
- `streamlit_authenticator` (`Authenticate`, `login`, `register_user`, `Hasher`). Password hashing is the opaque parameter `hash`.
- The pandas JSON codecs of expenses, gifts, suggestions and games: their cells are opaque encoded text. The list edits on those tables (`RegisterGift`, `DropGame`) work on decoded tables.
- Floating point: the budget is an opaque cell, and `GetOrcamento` returns `None` for the `0.0` default, not `float(cell)`. Totals, balance and the progress bar are not modelled.
- Database.GetOrcamento: does not model `float()` raising on text that is not a number (the source then returns `0.0`), because parsing floats is out of scope.
- The expense, suggestion and game forms of app_principal_backup.py (lines 211-225, 269-282, 295-308) are not modelled. Each builds one row, appends it to the decoded table and calls the encoded-table setter, the same shape as `RegisterGift`. The expense form also carries a float amount (line 214).
- Dates and the clock: the event date is an ISO string given with the form, and the countdown (app_cha_de_bebe_web.py:97-107) is not modelled.
- Codec.ParseInt: Python's `int()` also accepts surrounding whitespace, `_` digit separators and non-ASCII Unicode decimal digits (for example Arabic-Indic digits). The model accepts only an optional sign and decimal digits. This does not affect read-back of what the store writes.
- Database.ResetWrite: the choice between `""` and `0` follows a given set of text columns instead of the column's pandas dtype.
- Principal.DropGame: the row label `i` that `brincadeiras_df.drop(i)` receives is taken to be the position of the row. Decoded tables carry a default index, so the two coincide.
- DatabaseLaws.FilledWritesIsolateUsers: the checklist read is kept only when the sheet holds both checklist columns or neither. With one of them alone, the fill puts `""` in the other, and the other user's checklist can then read differently. `Web.RegisterKeepingDataIsolates` has the same exception.
- Web.RegisterKeepingDataIsolates: stated for a sheet that has a `username` column or no data, as every sheet of registered users does.
- The NaN that makes `update` raise is modelled as the `Missing` cell a write leaves in a new column or a new row, or a `Missing` value written. Float cells are not modelled, so neither is a float NaN typed into the budget page.
- Concurrency: two sessions that read the sheet and write it back overwrite each other. The model runs one operation at a time.
- secrets_test_app.py, teste_auth.py and migrar_senhas.py are not part of this model. The first is a secrets viewer, the second a library smoke test, and the third a wrapper over `Hasher` and `update_users`.
- Lines 1-14 and 346-350 of app_principal_backup.py are prose, not code.

## Findings

| source | as written | input that shows it | evidently intended | confidence | as-written member | corrected member |
|---|---|---|---|---|---|---|
| app_cha_de_bebe_web.py:77-83 | a registration writes the rebuilt users table, only the four identity columns, over the whole sheet via `update_users` | a sheet where "ana" has guest "Bia"; "caio" registers; "ana"'s guests then read as `[]` | append the new user's row to the whole table, fill its NaN with `""`, and keep every other column and row | not executed | Web.RegistrationLosesGuests | Web.RegisterKeepingDataIsolates |
| database.py:165-169 | each setter runs `clear` and then `update` with the table it built; a table holding NaN makes `update` raise after the clear, so the setter returns False and the sheet, accounts included, is empty | users "v" and "u" with only the identity columns; "u" saves budget 100; "v"'s new budget cell is NaN, and the sheet ends empty | fill NaN with `""` (`df.fillna("")`) before `update` | not executed | DatabaseLaws.BudgetWipesAccounts | DatabaseLaws.FilledWritesKeepAccounts |
| app_cha_de_bebe_web.py:118-122 | the empty-name check runs on the raw name, and the name saved is the stripped one | name `"   "`: the check passes, `""` is saved, and the gate at line 109 asks for configuration again | reject a name that is empty after stripping | not executed | Web.WhitespaceNameStaysUnconfigured | Web.CheckedEventIsConfigured |
