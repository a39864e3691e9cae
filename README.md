# my_academia — a Dafny model of its core

my_academia is a small web application in which students keep track of their
university modules. For each module a student records the lecture hours,
the attended hours, the assignments and the labs. This project models the
parts of it that decide things and proves what they promise.

- **The module table** (`module_schema.dfy`, `module_controller.dfy`).
  - The `Module` schema: the name is trimmed, the code is trimmed and
    upper-cased, both have length caps, and the hour counters are never
    negative.
  - The `(moduleCode, user)` unique index.
  - The `attendancePercentage` virtual.
  - The five owner-scoped handlers (create, list, get, update, delete),
    modelled as the class `ModuleTable`. Every method keeps the table
    invariant: records well formed, ids distinct, no two records of one
    owner sharing a code.
- **Users and the access gate** (`auth_controller.dfy`, `access_gate.dfy`).
  - `register`, `login` and `getCurrentUser`, over the class `UserStore`.
  - The `auth` middleware: take the bearer token from the header, verify it,
    look the user up again, then set `req.user` and call the next handler.
- **The request validators** (`validation.dfy`). They check the
  registration-number format, the full-name alphabet and length, and
  password strength, and they make the pass-or-400 decision. The routes run
  them before `register` and `login`, so the handlers take a validated body
  as a precondition (`backend/routes/authRoutes.js:9-10`).
- **Client-side editing** (`module_card.dfy`, `module_form.dfy`, `home.dfy`).
  - On the module card: the percentage it shows, the attendance counter, and
    the `assignment:<i>:marks` and `lab:<i>:completed` field names it sends.
  - In the form: the list editors, the initialisation, and the submit step
    with its ordered error list.
  - On the home page: decoding those field names and writing in place into a
    shallow copy of the record, and the local filter after a delete.

The other files are shared vocabulary:
- `text.dfy` holds the JavaScript string operations the code relies on:
  `trim` with its whitespace set, ASCII `toUpperCase`, `indexOf`, `replace`
  of the first occurrence, `split`/`join`, and decimal digits.
- `client_data.dfy` holds JavaScript values, truthiness, `Number()`,
  `parseInt` and arrays with holes.
- `optional.dfy` holds `Option`.

Password hashing, the password comparison, token signing and token
verification are functions passed in as parameters. Whether the server
accepted a request is a boolean parameter. The current time is an integer
parameter.

Notes on the code:
- The module handlers answer a 500 with the error's own message next to
  "Server error". The model's `ServerError` carries that cause; it is not
  a generic reply.
- An update whose new code collides with another record of the same owner is
  the unique index's error. It is answered 500, not 400. The same holds for an
  update whose values the validators reject.
- `getModule`, `updateModule` and `deleteModule` are modelled although
  `backend/routes/moduleRoutes.js:13-15` comments out their routes. Over
  HTTP they cannot be reached.

## Model

| member | source | states |
|---|---|---|
| ModuleSchema.NormaliseCode | backend/models/Module.js:10-16 | the stored code is empty exactly when the input was blank, and is never longer than the input |
| Text.Utf16Length | backend/models/Module.js:8 | the length `maxlength` compares: between the number of characters and twice that, a character outside the Basic Multilingual Plane counting two |
| Text.Utf16LengthBmp | backend/models/Module.js:8 | a string with no character outside the Basic Multilingual Plane (any ASCII text) has as many UTF-16 units as characters |
| Text.Utf16LengthAstral | backend/models/Module.js:8 | a string of characters outside the Basic Multilingual Plane (emoji) has twice as many UTF-16 units as characters: 60 emoji count 120, over the cap of 100 |
| ModuleSchema.NormaliseCodeIsNormal | backend/models/Module.js:10-16 | a code after the setters is trimmed and contains no lower-case ASCII letter |
| ModuleSchema.NormalCodeFixed | backend/models/Module.js:13-14 | the setters leave a code that is already normal unchanged |
| ModuleSchema.NormaliseCodeIdempotent | backend/models/Module.js:13-14 | normalising a stored code again gives the same code |
| ModuleSchema.FieldErrors | backend/models/Module.js:4-26 | at most one message per path, in schema order; each message is present exactly when its rule fails: empty name or code is "required", a UTF-16 length over 100 or 20 is "cannot exceed", a negative counter is "cannot be negative" |
| ModuleSchema.FieldErrorsEmptyIff | backend/models/Module.js:4-26 | the validators report nothing exactly when the name has 1 to 100 UTF-16 units, the code 1 to 20, and both hour counters are non-negative |
| ModuleSchema.ValidatorsAcceptIff | backend/models/Module.js:4-26 | a record built from raw input by the setters is well formed (trimmed, normal code, length caps in UTF-16 units, non-negative hours) exactly when the validators report no error |
| ModuleSchema.BlankIsRequired | backend/models/Module.js:4-16 | a whitespace-only name is reported first as "Module name is required"; with a good name, a whitespace-only code is reported first as "Module code is required" |
| ModuleSchema.RoundHalfUp | backend/models/Module.js:45 | the result is within half a unit of num/den, with halves rounded up, as `Math.round` does |
| ModuleSchema.RoundHalfUpUnique | backend/models/Module.js:45 | no other integer meets the round-half-up bounds |
| ModuleSchema.AttendancePercentage | backend/models/Module.js:43-46 | 0 without lecture hours; otherwise within half a unit of 100 * attended / lecture, halves rounded up |
| ModuleSchema.PercentageBounds | backend/models/Module.js:43-46 | while attended ≤ lecture hours, the percentage lies between 0 and 100 |
| ModuleSchema.PercentageUncapped | backend/models/Module.js:22-26 | for every lecture count above 0, attending at least as many hours shows at least 100 per cent, and the validators judge such a record exactly as with 0 attended hours: no rule compares the two counters |
| ModuleSchema.PercentageExample | backend/models/Module.js:43-46 | 30 and 15 give 50; 0 lecture hours give 0; 3 and 2 give 67; 10 and 12 give 120 |
| ModuleController.FindOwned | backend/controllers/moduleController.js:80-83 | the position found holds the id and the caller as owner; none is found exactly when no such record exists |
| ModuleController.OwnedByExact | backend/controllers/moduleController.js:65 | the caller's list holds exactly the records the caller owns |
| ModuleController.OwnedByAppend | backend/controllers/moduleController.js:65 | filtering by owner keeps collection order: the filter of a concatenation is the concatenation of the filters |
| ModuleController.AppendKeepsInvariant | backend/models/Module.js:40 | adding a well-formed record with a fresh id and a code unused by its owner keeps the table invariant |
| ModuleController.ReplaceKeepsInvariant | backend/controllers/moduleController.js:100-104 | replacing a record, keeping its id and colliding with no other record, keeps the table invariant |
| ModuleController.RemoveKeepsInvariant | backend/controllers/moduleController.js:119-122 | removing a record keeps the table invariant |
| ModuleController.PatchedWellFormed | backend/controllers/moduleController.js:100-104 | an update the validators accept turns a well-formed record into a well-formed one |
| ModuleController.ModuleTable.constructor | backend/models/Module.js:3-40 | the empty collection satisfies the invariant |
| ModuleController.ModuleTable.Insert | backend/controllers/moduleController.js:27-35 | the accepted record is appended under the next id and the invariant holds |
| ModuleController.ModuleTable.Create | backend/controllers/moduleController.js:3-60 | a missing or empty name or code gives 400 "Module name and code are required"; a code the caller already holds (after normalisation) gives 400 "Module code already exists for this user"; validator errors give 400 "Validation failed" with the messages in schema order; otherwise exactly one record, owned by the caller with missing hours 0, is added and returned with 201; nothing changes on any error |
| ModuleController.ModuleTable.GetAll | backend/controllers/moduleController.js:63-74 | 200 with exactly the caller's records, each with its percentage, in collection order |
| ModuleController.ModuleTable.Get | backend/controllers/moduleController.js:78-94 | 200 with the record exactly when it exists and is the caller's, otherwise 404 "Module not found" |
| ModuleController.ModuleTable.Update | backend/controllers/moduleController.js:96-115 | invalid supplied values give 500 with the validator messages; a missing or foreign id gives 404; a collision on (code, owner) gives 500; otherwise only the four supplied fields of the matched record change (normalised) and it is returned; the invariant holds throughout |
| ModuleController.ModuleTable.Delete | backend/controllers/moduleController.js:117-133 | a missing or foreign id gives 404 and changes nothing; otherwise exactly the matched record is removed and the reply is the confirmation message, not the record |
| ModuleController.ForeignRecordIsMissing | backend/controllers/moduleController.js:80-87 | a record of another user is never matched, so get, update and delete report it as missing |
| ModuleController.DeleteRemovesOnlyMatch | backend/controllers/moduleController.js:119-128 | after a delete the collection holds every other record and none with the deleted id |
| ModuleController.CodesArePerOwner | backend/models/Module.js:40 | a record of one owner never blocks the same code for another owner |
| Validation.FirstLine | backend/middlewares/validation.js:31 | the part a `.*` lookahead scans is the prefix up to the first line terminator |
| Validation.RegistrationErrors | backend/middlewares/validation.js:16-34 | at most six entries, none when every rule holds, each from a failing rule |
| Validation.LoginErrors | backend/middlewares/validation.js:37-46 | at most three entries, none when every rule holds, each from a failing rule |
| Validation.Reports | backend/middlewares/validation.js:5-9 | the error list has at most one entry per rule, every entry comes from a failing rule, and it is empty exactly when no rule fails |
| Validation.ReportsMember | backend/middlewares/validation.js:5-9 | with distinct entries, a rule's entry is listed exactly when the rule fails |
| Validation.RegistrationErrorsReport | backend/middlewares/validation.js:16-34 | each of the six registration rules reports its own message on its own field exactly when it fails |
| Validation.LoginErrorsReport | backend/middlewares/validation.js:37-46 | each of the three login rules reports its own message on its own field exactly when it fails |
| Validation.RegistrationRejection | backend/middlewares/validation.js:4-34 | registration input that breaks a rule is answered 400 "Validation failed" with the non-empty error list |
| Validation.LoginRejection | backend/middlewares/validation.js:37-46 | login input that breaks a rule is answered 400 "Validation failed" with the non-empty error list (the same `handleValidationErrors`, lines 4-13) |
| Validation.NoSelectorsFullLength | backend/middlewares/validation.js:19 | without presentation selectors the length `isLength` counts is the plain length |
| Validation.RegistrationNumberLength | backend/middlewares/validation.js:19-21 | every number in the format has length 12, so the 5 to 20 rule adds nothing |
| Validation.RegistrationAcceptedIff | backend/middlewares/validation.js:16-34 | registration input passes exactly when the number has the format, the name has 2 to 100 letters or whitespace, and the password has 8 or more characters and is strong |
| Validation.LoginAcceptedIff | backend/middlewares/validation.js:37-46 | login input passes exactly when the number has the format and the password is non-empty |
| Validation.RegistrationImpliesLogin | backend/middlewares/validation.js:20 | what passes registration passes login |
| Validation.StrongPasswordSingleLine | backend/middlewares/validation.js:31 | on a single line, strength is having a lower-case letter, an upper-case letter and a digit |
| Validation.StrongPasswordStopsAtLineBreak | backend/middlewares/validation.js:31 | characters after a line break are not seen: "\nPassword1" is weak |
| Validation.RegistrationNumberExamples | backend/middlewares/validation.js:20-21 | "EG/2020/1234" matches; "eg/2020/1234" and "EG-2020-1234" do not |
| Validation.StrongPasswordExample | backend/middlewares/validation.js:28-32 | "Password123" is strong |
| Validation.NoUpperIsWeak | backend/middlewares/validation.js:31 | a password without an upper-case letter is never strong |
| Validation.WeakPasswordExample | backend/middlewares/validation.js:28-32 | "password123" is weak |
| AuthController.FindByNumber | backend/controllers/authController.js:9 | the user found holds the number; none is found exactly when nobody holds it |
| AuthController.FindById | backend/middlewares/auth.js:22 | the user found has the id; none is found exactly when nobody has it |
| AuthController.FindByNumberUnique | backend/controllers/authController.js:49 | with distinct numbers the lookup finds the one user holding the number |
| AuthController.AppendedUserFound | backend/controllers/authController.js:14-15 | a user just registered is what a lookup by number or by id finds afterwards |
| AuthController.RegisterKeepsInvariant | backend/controllers/authController.js:9-15 | adding a user under a new number and the next id keeps numbers and ids distinct |
| AuthController.CurrentUser | backend/controllers/authController.js:87-101 | always 200 with a profile of the same id, number and name as the session replies' summary, plus the creation time; no password field |
| AuthController.UserStore.constructor | backend/controllers/authController.js:9-15 | the empty user collection satisfies the invariant |
| AuthController.UserStore.Register | backend/controllers/authController.js:5-42 | an existing number gives 400 "Registration number already exists" and adds nobody; otherwise exactly one user is added and a token is signed for the new id with options 1d, HS256, my-academia, my-academia-users; the reply is 201 with a summary of id, number and name and no password; a signing failure gives 500 "Something went wrong" after the save |
| AuthController.UserStore.Login | backend/controllers/authController.js:45-84 | reads only; an unknown number and a wrong password give the same 400 "Invalid credentials"; on success a token is signed for that user's id with the same options as at registration, and the reply is 200 with the same summary; a signing failure gives the generic 500 |
| Text.ReplaceFirst | backend/middlewares/auth.js:8 | without an occurrence the string is unchanged; with the pattern at the start it is replaced there; the length changes by at most one replacement |
| Text.ReplaceFirstAt | backend/middlewares/auth.js:8 | when the first occurrence is at position k, the result is the text before k, the replacement, and the text after the occurrence |
| AccessGate.ExtractToken | backend/middlewares/auth.js:8 | a token exactly when there is a header; "Bearer " at the start is dropped, a header without "Bearer " is the token unchanged, and at most one occurrence is removed |
| AccessGate.ExtractBearer | backend/middlewares/auth.js:8 | "Bearer " followed by a token gives back exactly the token |
| AccessGate.ExtractWithoutPrefix | backend/middlewares/auth.js:8 | a header without "Bearer " is taken as the token unchanged |
| AccessGate.ExtractTokenAt | backend/middlewares/auth.js:8 | when "Bearer " first occurs at position k, the token is the header with those seven characters cut out and both sides kept |
| AccessGate.ExtractInside | backend/middlewares/auth.js:8 | the first occurrence is removed wherever it stands: "xBearer y" gives "xy" |
| AccessGate.Decide | backend/middlewares/auth.js:8-29 | admits exactly when the token is non-empty, verifies and names a user who still exists, and admits that user; denies with "Access denied. No token provided." for no token and "Token is not valid" otherwise |
| AccessGate.Authenticate | backend/middlewares/auth.js:5-34 | on admission sets `req.user` to the user and calls the next handler; on every failure sends one 401 with the decided message and leaves the request alone; the user collection is only read |
| AccessGate.NoTokenDenied | backend/middlewares/auth.js:8-12 | a missing header and a bare "Bearer " are both "no token" |
| AccessGate.RemovedUserDenied | backend/middlewares/auth.js:22-25 | a verifying token for a user who has gone is refused as not valid |
| AccessGate.GateThenProfile | backend/controllers/authController.js:87-101 | behind the gate the profile shows the id, number, name and creation time of exactly the user the token names |
| ModuleCard.DisplayPercentage | frontend/src/components/ModuleCard.jsx:15-17 | 0 unless the lecture count is positive; otherwise within half a unit of 100 * attended / lecture, halves rounded up |
| ModuleCard.DisplayMatchesBackend | frontend/src/components/ModuleCard.jsx:15-17 | for every lecture count the backend can store, the card shows the backend's percentage |
| ModuleCard.DisplayDiffersOnNegative | frontend/src/components/ModuleCard.jsx:15-17 | only a negative lecture count makes them differ: the card shows 0 where the virtual gives -50 |
| ModuleCard.IncreaseNeverLowersPercentage | frontend/src/components/ModuleCard.jsx:15-21 | pressing plus never lowers the percentage the card shows |
| ModuleCard.Decrease | frontend/src/components/ModuleCard.jsx:23-26 | sends one less, never below 0, and 0 at 0 |
| ModuleCard.DecreaseUndoesIncrease | frontend/src/components/ModuleCard.jsx:19-26 | minus after plus gives back every count the backend can store |
| ModuleCard.AssignmentPath | frontend/src/components/ModuleCard.jsx:29 | the marks field name starts with "assignment:" |
| ModuleCard.LabPath | frontend/src/components/ModuleCard.jsx:33 | the lab field name starts with "lab:" |
| ModuleCard.MarksValue | frontend/src/components/ModuleCard.jsx:29 | a cleared input sends null, and nothing else does; otherwise a number or NaN; typed digits send their value, and digits behind a minus sign its negation |
| ModuleCard.MarksEdit | frontend/src/components/ModuleCard.jsx:28-30 | the edit names an assignment field; its value is null exactly when the input was cleared, otherwise a number or NaN; typed digits carry their value |
| ModuleCard.LabToggle | frontend/src/components/ModuleCard.jsx:32-34 | the edit names a lab field and carries the box's state as a boolean |
| ModuleCard.PathsDistinct | frontend/src/components/ModuleCard.jsx:28-34 | different elements get different field names |
| ModuleForm.Init | frontend/src/components/ModuleFormModal.jsx:13-29 | without a record every field is reset; with one the fields are copied with defaults '', '', 0, 0, [] and [] |
| ModuleForm.EditFormStartsFromCard | frontend/src/components/ModuleFormModal.jsx:13-29 | editing a record starts from what its card shows (ModuleCard.jsx:5-12): the same code, hours and lists, and the same name when there is one; a missing name is "Untitled" on the card and empty in the form |
| ModuleForm.EmptyRecordIsBlank | frontend/src/components/ModuleFormModal.jsx:14-28 | editing a record with no fields starts from the same state as adding one |
| ModuleForm.AddAssignment | frontend/src/components/ModuleFormModal.jsx:31 | appends `{name: '', marks: null}` and keeps the earlier entries |
| ModuleForm.AddLab | frontend/src/components/ModuleFormModal.jsx:39 | appends `{name: '', completed: false}` and keeps the earlier entries |
| ModuleForm.RemoveAt | frontend/src/components/ModuleFormModal.jsx:32 | one element shorter when the index is in range, unchanged in length otherwise; every element kept comes from the list |
| ModuleForm.RemoveAtSlices | frontend/src/components/ModuleFormModal.jsx:32 | removing drops exactly element i and keeps the others in order; an index outside the list removes nothing (the same filter is `removeLab`, line 40) |
| ModuleForm.UpdateAssignment | frontend/src/components/ModuleFormModal.jsx:33-37 | the list covers entry i afterwards; entry i is an object; its marks are null exactly when the value is ''; any other key takes the value |
| ModuleForm.UpdateLab | frontend/src/components/ModuleFormModal.jsx:41-45 | the list covers entry i afterwards; entry i is an object whose `completed` is a boolean; any other key takes the value |
| ModuleForm.UpdateAssignmentEffect | frontend/src/components/ModuleFormModal.jsx:33-37 | only entry i's key changes; marks become null for '' and `Number(val)` otherwise; any other key is set to the value itself |
| ModuleForm.UpdateLabEffect | frontend/src/components/ModuleFormModal.jsx:41-45 | only entry i's key changes; `completed` becomes the truthiness of the value; any other key is set to the value itself |
| ModuleForm.ItemErrors | frontend/src/components/ModuleFormModal.jsx:55-61 | at most one message per entry |
| ModuleForm.SubmitErrors | frontend/src/components/ModuleFormModal.jsx:51-61 | at most two messages plus one per entry; a blank name is reported first, and with a good name a blank code is reported first |
| ModuleForm.SubmitData | frontend/src/components/ModuleFormModal.jsx:68-81 | name and code are the trimmed inputs; numeric hours passed through; one submitted assignment and lab per entry, in order, each named by its entry's trimmed name; an assignment's marks are null when the entry's are and otherwise `Number` of them (a number or NaN); each lab's `completed` is the truth of its box |
| ModuleForm.SubmittedHours | frontend/src/components/ModuleFormModal.jsx:71-72 | hours typed as text arrive as numbers: digits give their value, digits behind a minus sign its negation, blank or unreadable text 0 |
| ModuleForm.PushItemErrors | frontend/src/components/ModuleFormModal.jsx:55-61 | the loop appends, in index order, the message of every entry whose name trims to nothing |
| ModuleForm.HandleSubmit | frontend/src/components/ModuleFormModal.jsx:47-84 | with errors, shows them joined by ". " and does not submit; without errors, submits the trimmed and converted data |
| ModuleForm.ItemErrorsExact | frontend/src/components/ModuleFormModal.jsx:55-61 | entry k's message is in the list exactly when entry k's name is blank |
| ModuleForm.NumberedMessagesDistinct | frontend/src/components/ModuleFormModal.jsx:56 | messages of different entries differ |
| ModuleForm.ItemErrorsEmptyIff | frontend/src/components/ModuleFormModal.jsx:55-61 | a list contributes no message exactly when no name is blank |
| ModuleForm.SubmitAcceptedIff | frontend/src/components/ModuleFormModal.jsx:51-66 | the form submits exactly when the name, the code and every entry name are non-blank |
| ModuleForm.SubmittedIsTrimmed | frontend/src/components/ModuleFormModal.jsx:68-81 | every submitted name is trimmed and non-empty |
| ClientData.ParseIntOfNatToString | frontend/src/pages/Home.jsx:133 | `parseInt` reads back a written index |
| ClientData.StringToNumberOfDigits | frontend/src/components/ModuleCard.jsx:29 | `Number` of a run of decimal digits is their value |
| ClientData.StringToNumberOfMinusDigits | frontend/src/components/ModuleCard.jsx:29 | `Number` of digits behind a minus sign is minus their value |
| ClientData.StringToNumberOfNatToString | frontend/src/components/ModuleFormModal.jsx:71-72 | `Number` reads back any written whole number |
| ClientData.NumberOrZeroOfText | frontend/src/components/ModuleFormModal.jsx:71-72 | the hours conversion on text (`Number`, with NaN read as 0): blank is 0, digits their value, digits behind a minus sign its negation |
| ClientData.SetProp | frontend/src/pages/Home.jsx:135-139 | the array grows to cover index i with holes; element i becomes an object with the property set; all other elements stay |
| Text.SplitJoin | frontend/src/pages/Home.jsx:132 | splitting pieces joined with ':' gives them back when none contains ':' |
| Home.DecodeFieldClassifies | frontend/src/pages/Home.jsx:129-142 | the hour branch is taken exactly for "attendedHours" and "lectureHours", the assignment branch exactly for names starting "assignment:", the lab branch exactly for names starting "lab:"; a decoded index is a valid array index |
| Home.ElementPathOf | frontend/src/pages/Home.jsx:132-133 | reading `head:<i>:prop` gives back index i and the property |
| Home.DecodeAssignmentPath | frontend/src/pages/Home.jsx:131-133 | decoding the card's marks field name gives back its index and "marks" |
| Home.DecodeLabPath | frontend/src/pages/Home.jsx:140-142 | decoding the card's lab field name gives back its index and "completed" |
| Home.ApplyInlineTouchesOnlyField | frontend/src/pages/Home.jsx:127-149 | the body keeps the record's id, name and code; each hour field, the assignments and the labs differ from the record only when the field name selects them |
| Home.CardMarksAsWritten | frontend/src/pages/Home.jsx:131-139 | as written, a marks edit from the card sets exactly that assignment's marks to the card's value, except that a cleared input is stored as 0 |
| Home.ClearedMarksStoredAsZero | frontend/src/pages/Home.jsx:139 | clearing an assignment's marks on the card (the card sends null) stores 0 in that assignment |
| Home.InlineMarksKeepsCardValue | frontend/src/pages/Home.jsx:139 | the corrected conversion stores whatever the card sends for marks unchanged, null included |
| Home.CardMarksRoundTrip | frontend/src/pages/Home.jsx:131-139 | with the corrected conversion, a marks edit from the card sets exactly that assignment's marks to the card's value, a cleared input included; the rest of the body is the record |
| Home.CardLabRoundTrip | frontend/src/pages/Home.jsx:140-148 | a lab toggle from the card sets exactly that lab's flag |
| Home.CardCounterRoundTrip | frontend/src/pages/Home.jsx:129-130 | the attendance buttons change only `attendedHours` |
| Home.UnknownFieldUnchanged | frontend/src/pages/Home.jsx:129-149 | an unrecognised field name sends the record unchanged |
| Home.EntryList.constructor | frontend/src/pages/Home.jsx:135 | a new list holds the given elements |
| Home.EntryList.Assign | frontend/src/pages/Home.jsx:136-139 | writes the property of element i in place, creating holes and the entry as needed |
| Home.WriteList | frontend/src/pages/Home.jsx:135-148 | a list the module has is written in place; a missing one is created on the copy only |
| Home.EditCopy | frontend/src/pages/Home.jsx:127-149 | the body is the edit applied to the record as it was, with the marks conversion as written; only the named list changes, and the module's own list now equals the body's |
| Home.FindModule | frontend/src/pages/Home.jsx:121 | the position found holds the id; none is found exactly when no module has it |
| Home.RemoveByIdExact | frontend/src/pages/Home.jsx:111 | the filtered list holds exactly the modules with another id |
| Home.RemoveByIdAppend | frontend/src/pages/Home.jsx:111 | the filter keeps order |
| Home.RemoveByIdIdempotent | frontend/src/pages/Home.jsx:111 | deleting twice is deleting once |
| Home.HomePage.constructor | frontend/src/pages/Home.jsx:8-12 | the page starts with the given modules and no error |
| Home.HomePage.InlineUpdate | frontend/src/pages/Home.jsx:118-168 | an unknown id sets "Module not found", builds no request and writes nothing; otherwise the body is the edit applied to the module as it was (marks converted as written); the module's named list is written in place, so the page state shows the edit whether or not the server accepts it; a refusal sets "Failed to update module" |
| Home.HomePage.DeleteModule | frontend/src/pages/Home.jsx:88-116 | a missing id sets "Module ID is undefined"; a refusal shows the server's message or "Failed to delete module"; an accepted delete removes every module with that id, keeping the order of the rest |

## Left out

- Persistence is left out: casting of ids, index building, `timestamps` (only `createdAt` of users, as a parameter) and Mongo's natural order. The collections are sequences in insertion order, and a lookup finds the first match.
- Concurrent requests are left out. The check-then-insert race in `createModule` and `register` is a concurrency matter, and the model runs calls one after another. As a result, create's duplicate-key branch (error code 11000) cannot be reached in the model.
- Create's duplicate lookup is modelled on the normalised code, because Mongoose applies the schema setters to query filters.
- An update strips fields the body leaves out, and its validators run before the lookup.
- Cryptography is left out:
  - hashing, `comparePassword`, `jwt.sign` and `jwt.verify` are parameters;
  - no claim is made about algorithm pinning, expiry, issuer or audience checks;
  - the options passed to `sign` are recorded as data.
  - `backend/models/User.js` is not part of this model. Its save hook is represented only by the `hash` parameter.
- The login rate limiter and the Express wiring (server, app, routes) are left out. The routes are used only for the precondition on `register` and `login` and for the note on unreachable handlers above.
- Store faults other than the modelled ones (a lost connection, a cast error on a malformed id) are left out. So is any 500 those would cause.
- Rendering and I/O are left out: React rendering and hooks, `fetch`, `localStorage`, `window.confirm`, navigation, `fetchModules` after an update, and `handleSaveModule`. A failure to parse the delete reply as JSON is left out too.
- Numbers are left out in part:
  - hours are integers, and `Math.round` of a double is modelled as exact round-half-up;
  - `Number()` is modelled on decimal integer strings (anything else is NaN) and `parseInt` in base ten; decimals, exponents and hexadecimal are not;
  - upper-casing maps ASCII letters only.
- Text.Utf16Length: strings are sequences of Unicode scalar values, so a JavaScript string holding a lone surrogate has no counterpart in the model.
- The backend's handling of non-string body values is left out: name and code are strings or absent, and hours are integers or absent.
- The `value` and `location` fields of express-validator's error entries are left out. The model keeps the path and the message.
- `backend/models/Assignment.js` and `backend/models/Lab.js` are used by no handler, and the backend drops the assignments and labs the client sends. Neither is modelled on the server side.
- Array elements on the client are objects or holes. An element that is some other falsy value is left out.
- ModuleForm.HandleSubmit: requires every entry to have a string name, as the entries the form creates do; on any other entry `name.trim()` throws, which is not modelled.
- Home.HomePage.InlineUpdate: a property written under a key that is not an array index (NaN, negative, 2^32 − 1 or more) is not carried in the JSON body, so the model leaves the list unchanged in that case.

## Findings

| source | as written | input that shows it | evidently intended | confidence | as-written member | corrected member |
|---|---|---|---|---|---|---|
| frontend/src/pages/Home.jsx:139 | the page converts the marks with `value === '' ? null : Number(value)`, but the card already sends `null` for a cleared input (frontend/src/components/ModuleCard.jsx:29), and `Number(null)` is 0 | clearing an assignment's marks on the card | cleared marks stay `null`, as in the form's own editor | not executed | Home.ClearedMarksStoredAsZero | Home.CardMarksRoundTrip |

`Home.ApplyInline`, `Home.EditCopy` and `Home.HomePage.InlineUpdate` build the request body with the marks conversion as written (`Home.InlineMarksAsWritten`). `Home.ApplyInlineIntended` builds it with the corrected conversion (`Home.InlineMarks`). Both are the one body builder, `Home.ApplyInlineWith`, given a different conversion.
