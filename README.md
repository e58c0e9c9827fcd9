# liftlog, modelled in Dafny

liftlog is a workout tracker: a Fastify back end over PostgreSQL, and a Next.js front end. Users
register and log in, and then edit programs. A program holds blocks, a block holds weeks, a week
holds days, and a day is a user-defined table of columns, rows and cells.

This project models the parts of liftlog whose behaviour can be stated exactly:

- the edits the front end applies to its copy of the program tree after each API call: append,
  delete, replace and rename by id, cell upsert keyed by column, column delete with its cells,
  and drag-and-drop reordering by two `splice` calls;
- the component state around those edits: the selected block and week, the add-column and
  create-block forms, the create-day form with its column list, and the drag indices;
- the inline auto-saving input. It is a state machine over the shown text, the last saved text
  and one pending debounce timer;
- the register and login forms: their field-by-field validators, including the e-mail pattern
  `^[^\s@]+@[^\s@]+\.[^\s@]+$`, their error maps, and what they do with the server's answer;
- the back end's user service (register, login, profile) over a user table, and its program
  service (create, list own) over a program table;
- the controller wrapper, which turns a handler's outcome into an HTTP reply, and the client's
  reading of that reply;
- the route guard that sends visitors to the login page and signed-in users away from it.

Each source file becomes one module:

| module | source |
|---|---|
| `Workout` | the Program, Block, Week, Day, Column, Row and Cell types the components share |
| `Seqs` | `Array.prototype.filter`, the `splice` pair of a drop, duplicate tests |
| `Text` | `String.prototype.trim`, `!s.trim()` and the e-mail pattern |
| `DayEdits`, `DayList` | `DayList.tsx` (`DayTable`) |
| `CreateDayModal` | `CreateDayModal.tsx` |
| `WeekEdits`, `BlockPanel` | `BlockPanel.tsx` |
| `BlockEdits`, `ProgramDetail` | `ProgramDetail.tsx` |
| `AutoSaveInput` | `ui/AutoSaveInput.tsx` |
| `FormErrors`, `RegisterPage`, `RegisterFlow` | `app/auth/register/page.tsx` |
| `LoginPage`, `LoginFlow` | `app/auth/login/page.tsx` |
| `ApiClient` | `lib/api.ts` (the error path) |
| `AuthService` | `services/auth.service.ts` |
| `ProgramService` | `services/program.service.ts` |
| `ControllerWrapper`, `Exceptions`, `Constants` | `utils/controllerWrapper.ts`, `utils/exceptions.ts`, `utils/constants.ts` |
| `Proxy` | `proxy.ts` |

The pure edits are functions on datatypes (`*Edits` modules). Each React component is a `class`
whose fields are its state cells. Each handler is a method that states the component's new
state in terms of those functions. Every edit is proved to keep the component's invariant:
- column ids are distinct;
- every cell belongs to its row and to a column;
- no column has two cells in a row;
- block ids are distinct;
- the selected block is one of the program's blocks;
- the selected week index is in range.

A drop is an in-place rotation of a copied array, proved equal to removing the element and
inserting it again, and proved to be a permutation.

The API modules `days`, `weeks` and `blocks` are not shown. Each call is a parameter: `Option<T>`
is the server's entity, or None when the call threw and the handler logged it. `ok: bool` is used
when the call returns nothing. `raised` is set where no handler catches the failure. bcrypt is a
pair of functions `hash` and `compare`, with the requirement that `compare` accepts any hash of
the same password. The database's new uuids and bcrypt's random salt are parameters. Token
verification in the route guard is a function `verify`.

One behaviour of the source is recorded rather than corrected. The debounce timer saves the text
it captured even when it is blank, which a blur never does (`AutoSaveInput.DebounceSavesBlank`).

## Model

| member | source | states |
|---|---|---|
| ControllerWrapper.Wrap | backend/src/utils/controllerWrapper.ts:10-22 | A completed handler gives no reply. A `LiftError` gives its code as status, its message under "error", and "key" exactly when the error has a key. Any other failure gives 500 and only `{error: fallback}`. Every reply has "error" and no member besides "error" and "key". |
| ControllerWrapper.OtherFailuresLookAlike | backend/src/utils/controllerWrapper.ts:21 | Two different non-`LiftError` failures produce the same reply, so nothing about the failure leaks. |
| ControllerWrapper.LiftErrorRecoverable | backend/src/utils/controllerWrapper.ts:18-19 | The status, message and key of a `LiftError` can all be read back from its reply. |
| ApiClient.MessageOf | frontend/src/lib/api.ts:29-30 | The message is the body's non-empty "error", otherwise "Request failed", also when the body is not JSON. It is never empty. |
| ApiClient.ErrorFromResponseAsWritten | frontend/src/lib/api.ts:28-31 | As written, the client error has the status and message, and its field is present exactly when the body has a "field" member, and it carries that member's value. |
| ApiClient.ErrorFromResponse | frontend/src/lib/api.ts:28-31 | Corrected: the field is present exactly when the body has the "key" member the back end sends, and it carries that member's value. |
| ApiClient.FieldLostAsWritten | frontend/src/lib/api.ts:30 | As written, no failure that reaches the client through the controller wrapper ever carries a field. |
| ApiClient.LiftErrorReachesClient | backend/src/utils/controllerWrapper.ts:18-19 | Corrected, a `LiftError` reaches the client with its code, its message (or "Request failed" when that is empty), and its key as the field. |
| ApiClient.OtherFailureReachesClient | backend/src/utils/controllerWrapper.ts:21 | Any other failure reaches the client as status 500 with the fallback message and no field. |
| AuthService.FindByEmail | backend/src/services/auth.service.ts:45-48 | `const [user] = select … where email`: the first user with that email, or none when no user has it. |
| AuthService.FindById | backend/src/services/auth.service.ts:64-67 | The first user with that id, or none when no user has it. |
| AuthService.EmailTakenIff | backend/src/services/auth.service.ts:12-17 | The `existingEmail.length > 0` test holds exactly when some user has the email. |
| AuthService.UsernameTakenIff | backend/src/services/auth.service.ts:21-26 | The `existingUsername.length > 0` test holds exactly when some user has the username. |
| AuthService.LoginResult | backend/src/services/auth.service.ts:44-61 | Every failure is the one error "Invalid credentials" (401, no key), whether the email is unknown or the password is wrong. A success is a stored user with that email whose hash `compare` accepts. In a table with unique emails, login succeeds exactly when such a user exists. |
| AuthService.ProfileResult | backend/src/services/auth.service.ts:63-74 | The user with the id, or "User not found" with 404 when there is none. |
| AuthService.AddAccountKeepsUnique | backend/src/db/schema.ts:8-10 | Appending an account whose id, username and email are all new keeps the three columns unique. |
| AuthService.RegisteredUserCanLogIn | backend/src/services/auth.service.ts:30-61 | An account stored with the hash of its password logs in with that password and yields that account. |
| AuthService.UserTable.Register | backend/src/services/auth.service.ts:11-42 | A taken email fails with "Email already registered" (400, key "email") before the username is looked at. A taken username then fails with "Username already taken" (400, key "username"). In both cases the table is unchanged. Otherwise exactly one user is appended, with the hashed password and the new id, and returned. Uniqueness of the table is preserved. |
| AuthService.UserTable.Login | backend/src/services/auth.service.ts:44-61 | The answer is `LoginResult` on the current table, and the table is not modified. |
| AuthService.UserTable.GetProfile | backend/src/services/auth.service.ts:63-74 | The answer is `ProfileResult` on the current table, and the table is not modified. |
| AuthService.RegisterThenLogIn | backend/src/services/auth.service.ts:11-61 | After a successful register, logging in with the same email and password returns the new account. |
| ProgramService.OwnedBy | backend/src/services/program.service.ts:18-20 | The listed rows are exactly the table's rows whose `createdBy` is the user. |
| ProgramService.NewListedForCreator | backend/src/services/program.service.ts:6-20 | After an insert, the creator's list is the old list with the new program at the end. |
| ProgramService.NewHiddenFromOthers | backend/src/services/program.service.ts:6-20 | An insert does not change the list of any other user. |
| ProgramService.ProgramTable.New | backend/src/services/program.service.ts:6-16 | Exactly one row is appended and returned, with the name and `createdBy` = creator. Only the creator's list grows. |
| ProgramService.ProgramTable.GetAll | backend/src/services/program.service.ts:18-20 | Exactly the user's programs, and the table is not modified. |
| Proxy.AnyPrefix | frontend/src/proxy.ts:22 | `routes.some(r => path.startsWith(r))` holds exactly when some route is a prefix of the path. |
| Proxy.Decide | frontend/src/proxy.ts:18-39 | On a public path, the guard redirects to "/" exactly when a non-empty token is present and verified, and lets the request through otherwise. On any other path, it redirects to "/auth/login" exactly when it is not so signed in, and lets the request through otherwise. A request is let through exactly when "public" and "signed in" differ. |
| Proxy.PublicIff | frontend/src/proxy.ts:4 | A path is public exactly when it starts with "/auth/login" or "/auth/register". |
| Proxy.PrefixesArePublic | frontend/src/proxy.ts:22 | The test is on prefixes: "/auth/login/x" and "/auth/registered" are public, while "/" and "/auth" are not. |
| Proxy.NoTokenNoVerify | frontend/src/proxy.ts:26 | Without a token the decision does not depend on the verifier: pass on a public path, otherwise redirect to login. |
| Proxy.RedirectSettles | frontend/src/proxy.ts:24-36 | The page a redirect leads to, requested with the same cookie, is let through, so redirects never chain. |
| Text.Trim | frontend/src/app/auth/register/page.tsx:30 | The result of `trim()` neither starts nor ends with ECMAScript white space, and it is no longer than its input. `TrimRemovesOnlyEnds` states what it keeps. |
| Text.TrimRemovesOnlyEnds | frontend/src/app/auth/register/page.tsx:30 | The result of `trim()` is a contiguous slice of its input with only ECMAScript white space before and after it, so only the white space at either end is removed and the middle is kept as it is. |
| Text.BlankIffTrimEmpty | frontend/src/app/auth/register/page.tsx:30 | The blank test used by the validators holds exactly when `s.trim()` is empty. |
| Text.TrimIdempotent | frontend/src/components/CreateDayModal.tsx:22-23 | Trimming a trimmed text changes nothing. |
| Text.Utf16Length | frontend/src/app/auth/register/page.tsx:31 | `.length` counts UTF-16 code units: between one and two per character. |
| Text.BmpUtf16Length | frontend/src/app/auth/register/page.tsx:43 | For text in the Basic Multilingual Plane, `.length` is the number of characters. |
| Text.EmailShapedIffPattern | frontend/src/app/auth/register/page.tsx:38 | The executable test, which splits at the first "@", accepts exactly the strings that `^[^\s@]+@[^\s@]+\.[^\s@]+$` matches. |
| Text.EmailPatternNotBlank | frontend/src/app/auth/register/page.tsx:36-40 | A string the pattern matches is never blank, so "Email is required" and the pattern check never disagree. |
| FormErrors.WithError | frontend/src/app/auth/register/page.tsx:31 | `newErrors.f = message` sets the message for that field and leaves every other field's message as it was. |
| FormErrors.EmailError | frontend/src/app/auth/register/page.tsx:36-40 | "Email is required" exactly when the email is blank. "Please enter a valid email address" exactly when it is not blank and fails the pattern. No message exactly when it passes. |
| FormErrors.EmailErrorIffPattern | frontend/src/app/auth/login/page.tsx:26-30 | The email gets no message exactly when it matches the pattern. |
| FormErrors.ClearOnChange | frontend/src/app/auth/register/page.tsx:80-82 | After an edit the field shows no message, and every other field's message is unchanged. When the field showed none, nothing changes. |
| RegisterPage.UsernameError | frontend/src/app/auth/register/page.tsx:30-34 | "Username is required" exactly when the username is blank. "…at least 3 characters" exactly when it is not blank and its untrimmed `.length` in UTF-16 code units is below 3. Otherwise no message. |
| RegisterPage.PasswordError | frontend/src/app/auth/register/page.tsx:42-46 | "Password is required" exactly when empty. The length message exactly when non-empty and its `.length` in UTF-16 code units is below 8. Otherwise no message. |
| RegisterPage.AstralCharactersCountTwice | frontend/src/app/auth/register/page.tsx:31-45 | Four emoji pass the password length rule and two emoji pass the username rule, because each counts two units. "ab" is too short. |
| RegisterPage.ConfirmError | frontend/src/app/auth/register/page.tsx:48-52 | "Please confirm your password" exactly when empty. "Passwords do not match" exactly when non-empty and different from the password. Otherwise no message. |
| RegisterPage.RegisterErrors | frontend/src/app/auth/register/page.tsx:28-52 | Only the four field keys occur, and each field's entry is that field's own check. |
| RegisterPage.RegisterErrorsEmptyIff | frontend/src/app/auth/register/page.tsx:54-55 | The form is valid (no errors) exactly when the username is not blank and is at least 3 UTF-16 units long, the email matches the pattern, the password is at least 8 units long, and the confirmation equals it. |
| RegisterPage.WithField | frontend/src/app/auth/register/page.tsx:79 | Only the edited field of the form data changes. |
| RegisterPage.ErrorsAfterRefusal | frontend/src/app/auth/register/page.tsx:69-72 | An error naming a field replaces all messages by that field's message alone. Any other error leaves no message. |
| RegisterPage.ErrorsAfterReply | frontend/src/app/auth/register/page.tsx:66-72 | After a form that passed validation, a refusal leaves `ErrorsAfterRefusal` of its error, and any other outcome leaves no message. |
| RegisterPage.Page.constructor | frontend/src/app/auth/register/page.tsx:19-25 | The page starts with four empty fields and no messages. |
| RegisterPage.Page.Validate | frontend/src/app/auth/register/page.tsx:27-56 | The page's errors become `RegisterErrors` of the form, and the answer is "valid" exactly when there are none. |
| RegisterPage.Page.Submit | frontend/src/app/auth/register/page.tsx:58-76 | An invalid form is never sent, and its errors are shown. A valid one sends username, email and password. A token is stored and "/" opened exactly when the server signs the user in. A refusal's errors are as `ErrorsAfterRefusal`. |
| RegisterPage.Page.Change | frontend/src/app/auth/register/page.tsx:78-83 | The field takes the text, its message is cleared, and no other message changes. |
| RegisterFlow.TakenEmailHiddenAsWritten | frontend/src/app/auth/register/page.tsx:70-72 | As written, registering a taken email leaves the page with no message at all. |
| RegisterFlow.TakenEmailShown | backend/src/services/auth.service.ts:17-18 | Reading "key", the refusal for a taken email shows "Email already registered" under the email field only. |
| RegisterFlow.TakenUsernameShown | backend/src/services/auth.service.ts:26-27 | Reading "key", the refusal for a taken username shows "Username already taken" under the username field only. |
| LoginPage.PasswordError | frontend/src/app/auth/login/page.tsx:32-34 | The password is only required to be present; there is no length rule. |
| LoginPage.LoginErrors | frontend/src/app/auth/login/page.tsx:23-35 | Only "email" and "password" occur. The email's entry is the same check as on registration, and the password's is the presence check. |
| LoginPage.LoginErrorsEmptyIff | frontend/src/app/auth/login/page.tsx:36-37 | The form is valid exactly when the email matches the pattern and the password is non-empty. |
| LoginPage.WithField | frontend/src/app/auth/login/page.tsx:63 | Only the edited field of the form data changes. |
| LoginPage.ErrorsAfterReply | frontend/src/app/auth/login/page.tsx:51-54 | Any refusal sets the errors to exactly `{email: message}`. |
| LoginPage.Page.Validate | frontend/src/app/auth/login/page.tsx:23-38 | The page's errors become `LoginErrors` of the form, and the answer is "valid" exactly when there are none. |
| LoginPage.Page.Submit | frontend/src/app/auth/login/page.tsx:40-58 | An invalid form is never sent. A valid one sends email and password. A token is stored and "/" opened exactly when the server signs the user in. A refusal shows its message under the email. |
| LoginPage.Page.Change | frontend/src/app/auth/login/page.tsx:60-67 | The field takes the text, its message is cleared, and no other message changes. |
| LoginPage.Page.constructor | frontend/src/app/auth/login/page.tsx:17-21 | The page starts with empty fields and no messages. |
| LoginFlow.InvalidCredentialsShownUnderEmail | frontend/src/app/auth/login/page.tsx:51-54 | A failed login reaches the page as "Invalid credentials" under the email field. |
| AutoSaveInput.SaveValue | frontend/src/components/ui/AutoSaveInput.tsx:37-52 | Nothing is sent exactly when the text equals the last saved one. Otherwise the text is sent, and it becomes the last saved text only if `onSave` succeeds. |
| AutoSaveInput.SaveValueSettles | frontend/src/components/ui/AutoSaveInput.tsx:39-44 | Once a text has been saved, saving it again sends nothing. |
| AutoSaveInput.FailedSaveIsRetried | frontend/src/components/ui/AutoSaveInput.tsx:42-46 | After a failed save, the same text is sent again at the next save. |
| AutoSaveInput.Input.InitialValueChanged | frontend/src/components/ui/AutoSaveInput.tsx:32-35 | A new `initialValue` resets both the shown text and the last saved text to it. |
| AutoSaveInput.Input.constructor | frontend/src/components/ui/AutoSaveInput.tsx:26-29 | The field starts showing `initialValue`, which is also the last saved text, with no timer pending, nothing sent and `onBlur` not yet called. |
| AutoSaveInput.Input.Save | frontend/src/components/ui/AutoSaveInput.tsx:37-52 | The last saved text and the list of sent texts evolve as `SaveValue` says. |
| AutoSaveInput.Input.Change | frontend/src/components/ui/AutoSaveInput.tsx:54-70 | The text is shown. Unless the input saves only on blur, the single pending timer is replaced by one holding the new text. |
| AutoSaveInput.Input.TimerFires | frontend/src/components/ui/AutoSaveInput.tsx:67-69 | The pending save runs on the text it captured, and no timer is left pending. |
| AutoSaveInput.Input.Blur | frontend/src/components/ui/AutoSaveInput.tsx:73-82 | The timer is cancelled. The shown text is saved exactly when its trim is non-empty, and after a successful save the field is in sync. Then the `onBlur` prop is called once, whether or not anything was saved. |
| AutoSaveInput.Input.Enter | frontend/src/components/ui/AutoSaveInput.tsx:86-88 | Enter only blurs: the same new state as `Blur`, so a blank text is not saved and a non-blank one is saved as `SaveValue` says, and `onBlur` is called once. |
| AutoSaveInput.Input.EscapeAsWritten | frontend/src/components/ui/AutoSaveInput.tsx:89-93 | As written, the field shows the last saved text, but the blur that follows still saves the edited one, and `onBlur` is called once. |
| AutoSaveInput.Input.Escape | frontend/src/components/ui/AutoSaveInput.tsx:89-93 | Corrected: the edit is discarded, nothing is sent, the field is in sync, and `onBlur` is called once. |
| AutoSaveInput.EscapeSavesEditAsWritten | frontend/src/components/ui/AutoSaveInput.tsx:85-94 | Typing "b" over a saved "a" and pressing Escape shows "a" while "b" is sent and saved. |
| AutoSaveInput.EscapeRevertsEdit | frontend/src/components/ui/AutoSaveInput.tsx:85-94 | With the corrected Escape the same keys send nothing, and "a" is shown and saved. |
| AutoSaveInput.DebounceSavesBlank | frontend/src/components/ui/AutoSaveInput.tsx:66-69 | Clearing the field and pausing sends the empty text, which a blur would not send. |
| Seqs.Filter | frontend/src/components/DayList.tsx:84 | `filter` keeps exactly the elements that satisfy the test. |
| Seqs.FilterInOrder | frontend/src/components/DayList.tsx:84 | What `filter` leaves is a subsequence of its input: the kept elements stay in their order. |
| Seqs.FilterUnique | frontend/src/components/DayList.tsx:84 | A list that is a subsequence of the input and holds every occurrence of the kept elements and none of the others is the `filter` result. So order and multiplicities, as the delete contracts state them, determine the result. |
| Seqs.MovedIsPermutation | frontend/src/components/DayList.tsx:191-193 | The two splices of a drop put the dragged element at the drop index and keep every element with its multiplicity. Taken out again, the other elements are in their old order. |
| Seqs.MovedToSelf | frontend/src/components/DayList.tsx:185-189 | A drop onto the dragged element's own index changes nothing. |
| Seqs.MoveInPlace | frontend/src/components/DayList.tsx:191-193 | The two `splice` calls on the copied array leave it equal to the moved list. |
| DayEdits.FindCellIndex | frontend/src/components/DayList.tsx:108 | `findIndex` gives the first cell of the column, or -1 (None) when the row has none. |
| DayEdits.CellForColumn | frontend/src/components/DayList.tsx:258-260 | `getCellForColumn` finds a cell exactly when the row has one for the column, and then it is one of the row's cells for that column. |
| DayEdits.AddRow | frontend/src/components/DayList.tsx:72-73 | Exactly one row is appended, with the server's id and one empty, unsaved cell per column in column order. The earlier rows are untouched. |
| DayEdits.DeleteRow | frontend/src/components/DayList.tsx:84 | Exactly the rows with the id go. The other rows stay in their order (`Subsequence`) and keep their multiplicity. |
| DayEdits.UpdateCell | frontend/src/components/DayList.tsx:93-99 | Only the value of the cells with that id changes. The number of rows, the cells per row and all ids are unchanged. |
| DayEdits.UpsertInRow | frontend/src/components/DayList.tsx:106-120 | When the row has a cell for the column, that cell is replaced and the count is unchanged. Otherwise the server's cell is appended. |
| DayEdits.UpsertCell | frontend/src/components/DayList.tsx:106-120 | Only the rows with the row id change. |
| DayEdits.RenameColumn | frontend/src/components/DayList.tsx:129-132 | Only the name of the column with the id changes, and the column ids keep their order. |
| DayEdits.RenameDay | frontend/src/components/DayList.tsx:137 | An empty name is stored as no name (`name \|\| null`). |
| DayEdits.AddColumn | frontend/src/components/DayList.tsx:145 | The server's column is appended, and the earlier columns are untouched. |
| DayEdits.DeleteColumn | frontend/src/components/DayList.tsx:158-165 | The column goes, and every cell of that column goes. The other columns, and the other cells of each row, stay in their order and keep their multiplicity. Rows keep their ids and positions. |
| DayEdits.AddRowKeepsWellFormed | frontend/src/components/DayList.tsx:72-73 | Adding a row keeps the table invariant. |
| DayEdits.DeleteRowKeepsWellFormed | frontend/src/components/DayList.tsx:84 | Deleting a row keeps the table invariant. |
| DayEdits.UpdateCellKeepsWellFormed | frontend/src/components/DayList.tsx:93-99 | Updating a cell keeps the table invariant. |
| DayEdits.UpsertCellKeepsWellFormed | frontend/src/components/DayList.tsx:106-120 | An upsert of a cell that belongs to the row and to one of the columns keeps the invariant; no column gets two cells. |
| DayEdits.RenameColumnKeepsWellFormed | frontend/src/components/DayList.tsx:129-132 | Renaming a column keeps the table invariant. |
| DayEdits.AddColumnKeepsWellFormed | frontend/src/components/DayList.tsx:145 | Adding a column with a new id keeps the table invariant. |
| DayEdits.DeleteColumnKeepsWellFormed | frontend/src/components/DayList.tsx:158-165 | Deleting a column keeps the invariant: no cell is left referring to it. |
| DayEdits.MoveColumnsKeepsWellFormed | frontend/src/components/DayList.tsx:234-239 | A column drop keeps the table invariant. |
| DayEdits.MoveRowsKeepsWellFormed | frontend/src/components/DayList.tsx:191-196 | A row drop keeps the table invariant. |
| DayEdits.UpsertThenFind | frontend/src/components/DayList.tsx:106-120 | After an upsert, the row's cell for the column is the server's cell. |
| DayEdits.UpsertThenSaveUpdates | frontend/src/components/DayList.tsx:364-376 | After an upsert, the next edit of that cell goes through `updateCell` with the server's id. |
| DayEdits.NewRowSavesByUpsert | frontend/src/components/DayList.tsx:72 | The cells of a new row have no server id, so each is first saved through `upsertCell`. |
| DayEdits.UpsertInRowTwice | frontend/src/components/DayList.tsx:106-120 | Two upserts on one column of a row are the second upsert alone. |
| DayEdits.UpsertTwice | frontend/src/components/DayList.tsx:102-125 | Two upserts of the same (row, column) are the second upsert alone. |
| DayEdits.AddThenDeleteColumn | frontend/src/components/DayList.tsx:140-169 | Deleting a column just added gives back the columns the day had. |
| DayList.DayTable.AddRow | frontend/src/components/DayList.tsx:68-79 | On success the day is `AddRow` with the server's row. On failure it is unchanged. The invariant is kept. |
| DayList.DayTable.DeleteRow | frontend/src/components/DayList.tsx:81-88 | On success the day is `DeleteRow`. On failure it is unchanged. The invariant is kept. |
| DayList.DayTable.UpdateCell | frontend/src/components/DayList.tsx:90-100 | A failure is not caught and the day is unchanged. On success the day is `UpdateCell`. The invariant is kept. |
| DayList.DayTable.UpsertCell | frontend/src/components/DayList.tsx:102-125 | On success the day is `UpsertCell` with the server's cell. On failure it is unchanged. The invariant is kept for a cell of a listed column. |
| DayList.DayTable.UpdateColumn | frontend/src/components/DayList.tsx:127-133 | A failure is not caught and the day is unchanged. On success only that column's name changes. |
| DayList.DayTable.UpdateDayName | frontend/src/components/DayList.tsx:135-138 | Sends `name \|\| undefined`. A failure is not caught. On success the day's name is `RenameDay`. |
| DayList.DayTable.AddColumn | frontend/src/components/DayList.tsx:140-153 | A name that is blank after trim sends nothing. Otherwise the trimmed name is sent, and on success the column is appended and the form is emptied and closed. On failure nothing changes. |
| DayList.DayTable.DeleteColumn | frontend/src/components/DayList.tsx:155-169 | On success the day is `DeleteColumn`. On failure it is unchanged. The invariant is kept. |
| DayList.DayTable.constructor | frontend/src/components/DayList.tsx:50-63 | The table starts with the day, no drag in progress, and an empty, closed add-column form. |
| DayList.DayTable.SetNewColumnName | frontend/src/components/DayList.tsx:453 | The column-name input holds the typed text. |
| DayList.DayTable.OpenAddColumnModal | frontend/src/components/DayList.tsx:331 | The add-column form is shown. |
| DayList.DayTable.CloseAddColumnModal | frontend/src/components/DayList.tsx:461-462 | The form is hidden and its input emptied. |
| DayList.DayTable.RowDragStart | frontend/src/components/DayList.tsx:172-175 | The row at the index becomes the dragged row. |
| DayList.DayTable.RowDragLeave | frontend/src/components/DayList.tsx:352 | No row is the drop target any more. |
| DayList.DayTable.ColDragStart | frontend/src/components/DayList.tsx:215-218 | The column at the index becomes the dragged column. |
| DayList.DayTable.ColDragLeave | frontend/src/components/DayList.tsx:302 | No column is the drop target any more. |
| DayList.DayTable.RowDragOver | frontend/src/components/DayList.tsx:177-181 | A row becomes the drop target unless no row is dragged or it is the dragged row. |
| DayList.DayTable.RowDrop | frontend/src/components/DayList.tsx:183-207 | With no drag, or a drop on the dragged row, the rows are unchanged. Otherwise the rows are moved and the reorder request names the dragged row and the drop index. Both drag indices are cleared. The invariant is kept. |
| DayList.DayTable.ColDragOver | frontend/src/components/DayList.tsx:220-224 | A column becomes the drop target unless no column is dragged or it is the dragged one. |
| DayList.DayTable.ColDrop | frontend/src/components/DayList.tsx:226-250 | As for rows, on the columns. |
| DayList.DayTable.RowDragEnd | frontend/src/components/DayList.tsx:209-212 | Both row drag indices are cleared. |
| DayList.DayTable.ColDragEnd | frontend/src/components/DayList.tsx:252-255 | Both column drag indices are cleared. |
| CreateDayModal.DefaultColumnsValid | frontend/src/components/CreateDayModal.tsx:15 | The default columns are trimmed, non-empty and distinct. |
| CreateDayModal.WithColumn | frontend/src/components/CreateDayModal.tsx:21-26 | Only the trimmed text can be appended, and only at the end. It is in the list afterwards unless its trim is empty, in which case nothing changes. A trimmed, duplicate-free list stays so. |
| CreateDayModal.WithColumnTwice | frontend/src/components/CreateDayModal.tsx:22 | Adding the same text twice adds it once. |
| CreateDayModal.WithoutColumnAt | frontend/src/components/CreateDayModal.tsx:28-30 | Exactly the name at the index is taken out: the names before it keep their positions, and the ones after it move down by one. An index out of range changes nothing. The invariant is kept. |
| CreateDayModal.MovedColumnsValid | frontend/src/components/CreateDayModal.tsx:55-58 | A drop keeps the column list trimmed, non-empty and duplicate-free. |
| CreateDayModal.Form.constructor | frontend/src/components/CreateDayModal.tsx:14-19 | The form starts with no name, the default columns and no drag. |
| CreateDayModal.Form.SetName | frontend/src/components/CreateDayModal.tsx:96 | The day-name input holds the typed text. |
| CreateDayModal.Form.SetNewColumn | frontend/src/components/CreateDayModal.tsx:142 | The column input holds the typed text. |
| CreateDayModal.Form.DragStart | frontend/src/components/CreateDayModal.tsx:32-35 | The column at the index becomes the dragged one. |
| CreateDayModal.Form.DragLeave | frontend/src/components/CreateDayModal.tsx:43-45 | No column is the drop target any more. |
| CreateDayModal.Form.DragEnd | frontend/src/components/CreateDayModal.tsx:63-66 | Both drag indices are cleared. |
| CreateDayModal.Form.AddColumn | frontend/src/components/CreateDayModal.tsx:21-26 | The columns become `WithColumn`, and the input is emptied exactly when a column was added. |
| CreateDayModal.Form.RemoveColumn | frontend/src/components/CreateDayModal.tsx:28-30 | The columns become `WithoutColumnAt`. |
| CreateDayModal.Form.DragOver | frontend/src/components/CreateDayModal.tsx:37-41 | A column becomes the drop target unless none is dragged or it is the dragged one. |
| CreateDayModal.Form.Drop | frontend/src/components/CreateDayModal.tsx:47-61 | With no drag or a drop on the dragged column nothing moves; otherwise the list is moved. The drag state is cleared and the invariant kept. |
| CreateDayModal.Form.Submit | frontend/src/components/CreateDayModal.tsx:68-80 | Nothing is sent while the list is empty. Otherwise the trimmed name is sent (none when blank) with the columns. The form is reset only when `onSubmit` succeeds, and a failure reaches the caller. |
| CreateDayModal.Form.Close | frontend/src/components/CreateDayModal.tsx:82-87 | The name, column list and input go back to their defaults. |
| WeekEdits.AppendWeek | frontend/src/components/BlockPanel.tsx:28-31 | The server's week, whole but with its days emptied (`{...week, days: []}`), is appended, and the earlier weeks are untouched. |
| WeekEdits.AddDay | frontend/src/components/BlockPanel.tsx:49-51 | The day is appended to the week at the index only, and every other week is unchanged. |
| WeekEdits.DeleteWeek | frontend/src/components/BlockPanel.tsx:60 | Exactly the weeks with the id go. The others stay in their order and keep their multiplicity. |
| WeekEdits.DeleteDay | frontend/src/components/BlockPanel.tsx:77-81 | The days with the id go from the week at the index, and its other days stay in their order and keep their multiplicity. The other weeks are unchanged. |
| WeekEdits.ReplaceDay | frontend/src/components/BlockPanel.tsx:89-93 | In the week at the index, the days with the id become the new day. Other weeks are unchanged. |
| WeekEdits.SelectionAfterDelete | frontend/src/components/BlockPanel.tsx:63-68 | The selected index after a delete is in range whenever weeks remain, and 0 when none remain. It is unchanged when it is still in range. |
| WeekEdits.ReplaceDayIdempotent | frontend/src/components/BlockPanel.tsx:88-95 | Applying the same day update twice is applying it once. |
| WeekEdits.AddThenDeleteDay | frontend/src/components/BlockPanel.tsx:43-86 | Deleting a day just added gives back the block. |
| WeekEdits.AppendThenDeleteWeek | frontend/src/components/BlockPanel.tsx:24-72 | Deleting a week just added gives back the block. |
| BlockPanel.Panel.CurrentWeek | frontend/src/components/BlockPanel.tsx:22 | `block.weeks[selectedWeekIndex]` exists exactly when the index is in range. |
| BlockPanel.Panel.constructor | frontend/src/components/BlockPanel.tsx:17-19 | The panel starts on week 0 with both modals closed, which satisfies the invariant. |
| BlockPanel.Panel.SelectWeek | frontend/src/components/BlockPanel.tsx:108 | The picked week is selected; picking an existing week keeps the index in range. |
| BlockPanel.Panel.SetWeekModalOpen | frontend/src/components/BlockPanel.tsx:109 | The create-week modal opens or closes. |
| BlockPanel.Panel.SetDayModalOpen | frontend/src/components/BlockPanel.tsx:118 | The create-day modal opens or closes. |
| BlockPanel.Panel.AddWeek | frontend/src/components/BlockPanel.tsx:24-41 | On success the week is appended and selected, and the modal closes. On failure nothing changes. |
| BlockPanel.Panel.AddDay | frontend/src/components/BlockPanel.tsx:43-55 | With no current week nothing is sent. Otherwise the day is created in the current week and appended to it alone. A failure reaches the caller and changes nothing. |
| BlockPanel.Panel.DeleteWeek | frontend/src/components/BlockPanel.tsx:57-72 | On success the block is `DeleteWeek` and the index is adjusted into range. On failure nothing changes. |
| BlockPanel.Panel.DeleteDay | frontend/src/components/BlockPanel.tsx:74-86 | On success the day is gone from the current week only. On failure nothing changes. |
| BlockPanel.Panel.DayUpdate | frontend/src/components/BlockPanel.tsx:88-95 | The block is `ReplaceDay` on the selected week. |
| BlockEdits.AppendBlock | frontend/src/components/ProgramDetail.tsx:30-34 | The server's block, with no weeks, is appended, and the earlier blocks are untouched. |
| BlockEdits.ReplaceBlock | frontend/src/components/ProgramDetail.tsx:48 | The blocks with the id become the new block, and the ids keep their order. |
| BlockEdits.RenameBlock | frontend/src/components/ProgramDetail.tsx:58-60 | Only the name of the blocks with the id changes. |
| BlockEdits.DeleteBlock | frontend/src/components/ProgramDetail.tsx:75 | Exactly the blocks with the id go. The others stay in their order and keep their multiplicity. |
| BlockEdits.AppendKeepsIdsDistinct | frontend/src/components/ProgramDetail.tsx:29-35 | A block with a new id keeps block ids distinct, and the new block is in the list. |
| BlockEdits.RenameTwice | frontend/src/components/ProgramDetail.tsx:53-64 | Two renames are the second rename. |
| BlockEdits.AppendThenDeleteBlock | frontend/src/components/ProgramDetail.tsx:23-83 | Deleting a block just created gives back the program. |
| BlockEdits.DeleteKeepsIdsDistinct | frontend/src/components/ProgramDetail.tsx:70-79 | Deleting keeps block ids distinct. |
| ProgramDetail.Detail.SelectBlock | frontend/src/components/ProgramDetail.tsx:118 | The picked block is selected. Selecting a listed block keeps the invariant. |
| ProgramDetail.Detail.constructor | frontend/src/components/ProgramDetail.tsx:15-18 | The page starts with no block selected and an empty, closed create-block form. |
| ProgramDetail.Detail.SetBlockName | frontend/src/components/ProgramDetail.tsx:145 | The block-name input holds the typed text. |
| ProgramDetail.Detail.SetModalOpen | frontend/src/components/ProgramDetail.tsx:105 | The create-block modal opens or closes. |
| ProgramDetail.Detail.CreateBlock | frontend/src/components/ProgramDetail.tsx:23-43 | A name blank after trim sends nothing. Otherwise the trimmed name is sent; on success the block is appended and selected, and the form is emptied and closed. On failure nothing changes. |
| ProgramDetail.Detail.BlockUpdate | frontend/src/components/ProgramDetail.tsx:45-51 | The block replaces its entry and is selected. The selection is in the list when the id was. |
| ProgramDetail.Detail.RenameBlock | frontend/src/components/ProgramDetail.tsx:53-68 | On success the block takes the server's name, and the selection is renamed only when it is that block. On failure nothing changes. |
| ProgramDetail.Detail.DeleteBlock | frontend/src/components/ProgramDetail.tsx:70-83 | On success the block goes, and the selection is cleared exactly when it was that block. On failure nothing changes. The invariant is kept. |

## Left out

- Loading flags (`isLoading`, `creating`, `saving`, `isAddingRow`, `addingColumn`, `creatingWeek`) and their `finally` resets only drive spinners and disabled buttons, so they are not modelled.
- Time: debounce delays, timer identities and the timestamps given to new cells are not modelled. A timer is a slot holding the text it will save.
- Concurrency: overlapping saves and requests still in flight are not modelled. Each handler runs to completion with its API call's outcome given.
- Console logging of caught failures is not modelled.
- `fetch`, cookies, `localStorage` and the router: the token a page stores and the page it opens are out-parameters, and `setToken`'s cookie format is not modelled.
- `verifyToken`'s request to `/api/auth/profile` is the oracle `verify`. A network error counts as a false answer.
- bcrypt's hashing and the database's uuid generation are parameters, with no model of their internals.
- The database and the ORM: tables are lists in insertion order. Foreign keys, timestamps and SQL are not modelled. Uniqueness appears only as the invariant `UniqueAccounts`.
- Request-body validation by Fastify's JSON schemas, including its length bounds and `format: "email"`, is not modelled. The services are modelled from their first line.
- JWT signing in the controllers and routing in Fastify are not modelled.
- AuthService.UserTable.GetProfile: returns the whole stored user, password hash included, as the service does. Which fields the controller then sends is not modelled.
- Presentation components are not modelled: ProgramsList, WeekTabs, BlockList, Modal, Button and the layouts.
- The next.js `matcher` that exempts static files from the guard is not modelled.
- BlockPanel keeps its selected week index when ProgramDetail shows another block. Each `Panel` models one block.
- DayList.DayTable.RowDrop: requires the dragged and drop indices to be positions in the list, because the DOM only fires drops on rendered rows. The same holds for DayList.DayTable.ColDrop and CreateDayModal.Form.Drop.
- `handleChange` sets a cleared message to `undefined` but keeps the key. The model removes the key, and the pages' `Shows` test treats both alike.

## Findings

| source | as written | input that shows it | evidently intended | confidence | as-written member | corrected member |
|---|---|---|---|---|---|---|
| frontend/src/lib/api.ts:30 | The client reads the error's field from `error.field`, but the controller wrapper sends it as `key` (backend/src/utils/controllerWrapper.ts:19), so `ApiError.field` is always undefined and the register page's per-field mapping (frontend/src/app/auth/register/page.tsx:70-72) never fires. | Register with an email already in use: the server answers 400 `{error: "Email already registered", key: "email"}`, and the page shows no message. | The message appears under the field the server names. | high (not executed) | ApiClient.ErrorFromResponseAsWritten, ApiClient.FieldLostAsWritten, RegisterFlow.TakenEmailHiddenAsWritten | ApiClient.ErrorFromResponse, ApiClient.LiftErrorReachesClient, RegisterFlow.TakenEmailShown |
| frontend/src/components/ui/AutoSaveInput.tsx:89-93 | Escape calls `setValue(lastSaved)` and then `blur()`. The blur handler runs at once, with the render's `value`, which is still the edited text, so that text is saved while the field shows the old one. | Saved "a", type "b", press Escape: "b" is sent and becomes the saved text, and the field shows "a". | Escape discards the edit: nothing is sent and the field shows the saved text. | medium (not executed; depends on React dispatching the nested blur before re-rendering) | AutoSaveInput.Input.EscapeAsWritten, AutoSaveInput.EscapeSavesEditAsWritten | AutoSaveInput.Input.Escape, AutoSaveInput.EscapeRevertsEdit |
