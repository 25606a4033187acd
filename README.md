# E-Ducar backend: enrollment, reconciliation and gatekeeping, in Dafny

This project models the behavioural core of the E-Ducar course platform's
backend, an Express/Sequelize service. Five parts are covered:

- **Enrollment** (`registration.dfy`). `create` enrols a student in a course.
  It checks the payload, refuses a second registration for the same
  student and course, and redeems a ticket when a code is given. It then
  inserts the registration and one lesson-progress row per lesson of the
  course. The module also covers `updateLessonProgress`, `finishCourse`
  (the registration update and the certificate link only) and `delete`.
- **Collaborator reconciliation** (`collaborator.dfy`). `update` makes the
  collaborator table match a submitted list. Rows whose id is not submitted
  are deleted. A submitted item with an id rewrites that row, and an item
  without one becomes a new row.
- **Student records** (`student.dfy`). This covers the email-guarded sign-up
  (`create`) and the bulk sign-up that also saves nested registrations and
  spends their tickets (`trashCreate`). It also covers the partial update
  (`update`).
- **Certificate name layout** (`split_string.dfy`). `SplitString` breaks a
  student's name into one or two lines.
- **Origin gate** (`check_origin.dfy`). This middleware admits a request
  only when its origin starts with an allowed entry.

The store is a class `Store.Db` with one `map` per table. Controller
methods update those maps in place, and `Db.Valid()` states the foreign
keys and the unique ticket codes that the migrations declare. Responses use
the envelope from `src/Types/ApiTypes.ts`:

- type 0: success;
- type 1: internal error, HTTP 500;
- type 2: validation error, HTTP 201;
- type 3: business error, HTTP 201.

Request fields are JSON values (`Api.Json`), so the zod checks tell a
missing key from `null`. A body without the checked object is `None` and
fails the schema with type 2. Some keys are checked by no schema, but
Sequelize writes them all the same. These are modelled as `Api.Assign`
values or optional ids: a student's `image` and `refreshToken`, and a
progress row's `lessonId` and `registrationId`.

Each step writes to the store as soon as it runs, and nothing is rolled
back. The code has no transaction: `create` marks the ticket used before
it inserts the registration. An insert that fails answers type 1 and
leaves the ticket used (`RegistrationController.Create`).

Some inputs are parameters:

- The password hash (bcrypt) is a parameter `hash: string -> string`.
- The 10-character validation code is an input `randomCode`.
- Whether the database accepts a string as a date is a parameter
  `validDate: string -> bool`. An insert with a date it refuses throws.
- The outcomes of the template download and the S3 upload are the boolean
  inputs `templateFetched` and `uploaded`.
- Whether the database takes a row is a parameter `fits` (each string
  within its VARCHAR(255) column, a collaborator code within INT, under
  MySQL's strict mode). A write it refuses throws, and the `catch`
  answers type 1.
- Fresh uuids come from `Store.Db.NewUuid`, which chooses a string that no
  row uses. The collaborator reconciliation draws its ids in
  `CollaboratorController.CreateRow` instead, which also avoids every id
  stored when the call began and every submitted id.

## Model

| member | source | states |
|---|---|---|
| Store.UpdateById | src/controllers/Registration.controller.ts:293-295 | `Model.update(values, { where: { id } })` keeps the key set. Only the row with that id changes, if it exists, and it becomes `f` of its old value. |
| Store.Db.Valid | src/migrations/20241213161907-registrations.js:15-34 | The foreign keys hold: registration to student and course (this migration), lesson to course (src/migrations/20241213191255-lessons.js:15-24), progress row to registration and lesson (src/migrations/20250226095712-lessons-progress.js:12-31). Ticket codes are unique (src/migrations/20241213161020-tickets.js:24-28, src/migrations/20250407170210-tickets.js:14-18). |
| Store.Db.NewUuid | src/models/Student.ts:55-57 | The `beforeCreate` uuid differs from every key of every table. |
| SplitString.Trim | src/utils/SplitString.ts:11-15 | `trim()` returns a piece of the input surrounded only by whitespace, and that piece neither starts nor ends with whitespace. |
| SplitString.TrimUnique | src/utils/SplitString.ts:11-15 | Any string that meets that description of a trim equals `Trim(s)`, so the trim is pinned down exactly. |
| SplitString.TrimIsSubstring | src/utils/SplitString.ts:11-15 | A trimmed string is a contiguous piece of the original. |
| SplitString.LastIndexOf | src/utils/SplitString.ts:5 | `lastIndexOf(' ')` is -1 or the index of a space, and no later index holds one. |
| SplitString.SplitString | src/utils/SplitString.ts:1-19 | A name of at most 30 characters comes back as exactly `[s]`. A longer one comes back as exactly two lines, the first at most 15 characters. |
| SplitString.BreakAtLastSpace | src/utils/SplitString.ts:4-12 | With a last space at index i < 15, the lines are `trim(s[..i])` and `trim(s[i..])`, and the first line has at most 14 characters. |
| SplitString.HardBreak | src/utils/SplitString.ts:13-15 | With no space in the first 15 characters, line 1 is exactly `s[..15]` (15 characters, untrimmed) and line 2 is `trim(s[30..])`. Characters 15 to 29 are dropped. |
| SplitString.LinesAreSubstrings | src/utils/SplitString.ts:10-18 | Every returned line is a contiguous piece of the name. |
| CheckOrigin.SplitComma | src/middlewares/checkOrigin.ts:3 | `split(",")` yields one more piece than there are commas, and no piece contains a comma. |
| CheckOrigin.JoinSplit | src/middlewares/checkOrigin.ts:3 | The split loses nothing: joining the pieces with commas gives the variable back. |
| CheckOrigin.SplitAppend | src/middlewares/checkOrigin.ts:3 | Appending `,entry` to the variable appends exactly `entry` to the allowed list. |
| CheckOrigin.AllowedOrigins | src/middlewares/checkOrigin.ts:3 | The allowed list is empty exactly when ALLOWED_ORIGINS is unset. |
| CheckOrigin.ResolveOrigin | src/middlewares/checkOrigin.ts:10 | The origin is the Origin header when it is non-empty, and otherwise the Referer header. |
| CheckOrigin.SomePrefix | src/middlewares/checkOrigin.ts:15 | `some(startsWith)` holds iff some allowed entry is a prefix of the origin. |
| CheckOrigin.Check | src/middlewares/checkOrigin.ts:10-22 | `next` is called iff the resolved origin is non-empty and some allowed entry is a prefix of it. Otherwise the answer is 403. |
| CheckOrigin.NoHeadersDenied | src/middlewares/checkOrigin.ts:15-22 | With neither header, the request is denied with 403. |
| CheckOrigin.UnsetVariableDeniesAll | src/middlewares/checkOrigin.ts:3-22 | With ALLOWED_ORIGINS unset, every request is denied. |
| CheckOrigin.EmptyVariableAdmitsAll | src/middlewares/checkOrigin.ts:3-18 | With ALLOWED_ORIGINS set to "", every request with a non-empty origin passes. |
| CheckOrigin.AddingEntryKeepsAllowed | src/middlewares/checkOrigin.ts:15-18 | Adding an entry to ALLOWED_ORIGINS never turns an admitted request into a denied one. |
| RegistrationController.ValidRegistration | src/controllers/Registration.controller.ts:46-51 | `createRegistrationSchema`: the body holds a `registration` object whose four fields are strings. |
| RegistrationController.Enrolled | src/controllers/Registration.controller.ts:182-187 | `findOne` on (studentId, courseId) finds a row with both values. |
| RegistrationController.HasCode | src/controllers/Registration.controller.ts:202 | `findOne` by code finds a ticket with that code. |
| RegistrationController.FindLessons | src/controllers/Registration.controller.ts:237-239 | `Lesson.findAll({ where: { courseId } })` lists each lesson of the course exactly once and nothing else. |
| RegistrationController.InsertProgressRow | src/controllers/Registration.controller.ts:243-249 | It adds one fresh progress row linking the registration to the lesson, with watchedAt null, and keeps the foreign keys. |
| RegistrationController.CreateLessonProgress | src/controllers/Registration.controller.ts:241-251 | The per-lesson loop adds, for the j-th listed lesson, one fresh row pointing at it and the registration with watchedAt null. It adds nothing else and changes no old row. |
| RegistrationController.ProgressStep | src/controllers/Registration.controller.ts:242-250 | One more insert extends the rows created so far by exactly one fresh row for the next lesson. |
| RegistrationController.ExactlyOneRowPerLesson | src/controllers/Registration.controller.ts:237-251 | After the inserts, each lesson of the course has exactly one new row and a lesson of another course has none. Every new row belongs to the new registration and is unwatched. |
| RegistrationController.RowCountIsLessonCount | src/controllers/Registration.controller.ts:237-251 | A new registration ends with exactly as many progress rows as its course has lessons. |
| RegistrationController.RedeemTicket | src/controllers/Registration.controller.ts:199-227 | The lookup succeeds iff an unused ticket has the code, and then exactly that ticket becomes used. A missing or used ticket changes nothing. |
| RegistrationController.InsertRegistration | src/controllers/Registration.controller.ts:229-251 | It inserts a fresh registration with the given fields, the ticket id, and null conclusion date, exam result and link. It then adds one fresh progress row per lesson of the course, listed once each, and keeps the foreign keys. |
| RegistrationController.Insertable | src/controllers/Registration.controller.ts:229-235 | The database accepts the new row: the student and the course exist and both dates are dates. |
| RegistrationController.Create | src/controllers/Registration.controller.ts:161-271 | The results are: type 2 with no change on a missing or bad payload; type 3 with no change on a duplicate pair or a missing or used ticket; the ticket marked used before the insert. A missing student or course, or a date the database refuses, gives type 1: the ticket stays used and no registration or row is added. Success inserts a fresh registration with the input's fields, the redeemed ticket id or null, and null conclusion, exam and link, plus one progress row per lesson. "At most one registration per pair" is preserved. |
| RegistrationController.ValidProgress | src/controllers/Registration.controller.ts:55-57 | `updateLessonProgressSchema`: the body holds a `lessonProgress` object whose `watchedAt` is missing or a string. |
| RegistrationController.ReferencesExist | src/models/LessonProgress.ts:25-44 | The lesson and registration a payload points a row at exist, as the foreign keys demand. |
| RegistrationController.Progressed | src/controllers/Registration.controller.ts:293-295 | The row after `LessonProgress.update(lessonProgress, ...)`: every key present in the payload is written. |
| RegistrationController.ProgressedFields | src/controllers/Registration.controller.ts:293-295 | Key by key: watchedAt is overwritten when given and kept when missing. The row moves to the given lesson or registration, if any. An empty payload keeps the row. |
| RegistrationController.UpdateLessonProgress | src/controllers/Registration.controller.ts:273-315 | A missing or bad payload gives type 2 and no change. If the row exists and the payload points it at a missing lesson or registration, the result is type 1 and no change. Otherwise only the row with the id becomes `Progressed` of itself, and no other row changes. |
| RegistrationController.ValidFinish | src/controllers/Registration.controller.ts:61-72 | `updateRegistrationSchema`: `finishData` holds both objects, with a string id, a number exam result and four more strings. |
| RegistrationController.DegreeLink | src/controllers/Registration.controller.ts:446 | The link starts with `https://` and ends with the validation code. |
| RegistrationController.DistinctCodesDistinctLinks | src/controllers/Registration.controller.ts:422-446 | Certificates with different 10-character codes get different links. |
| RegistrationController.FinishCourse | src/controllers/Registration.controller.ts:317-475 | A failed template download answers 500 with type 3 before validation and writes nothing. A bad payload gives type 2, and a failed upload gives type 1, both without writes. Otherwise only the registration with `registerData.id` changes: its link becomes the S3 address of the code, and its conclusion date and exam result come from the input. |
| RegistrationController.Delete | src/controllers/Registration.controller.ts:477-511 | A missing or empty id gives type 2 and no change. Otherwise the registration is gone and so are exactly its progress rows (cascade). Everything else is untouched. |
| CollaboratorController.ValidItem | src/controllers/Collaborator.controller.ts:7-13 | The schema element: an optional string id, a string name and a number code. |
| CollaboratorController.ValidList | src/controllers/Collaborator.controller.ts:7-13 | `collaborators` is an array whose every element is valid. |
| CollaboratorController.Parse | src/controllers/Collaborator.controller.ts:7-13 | A schema-valid element keeps its name and code, and has an id exactly when it submitted one. |
| CollaboratorController.ParseAll | src/controllers/Collaborator.controller.ts:7-13 | The parsed list is element by element the parse of the body. |
| CollaboratorController.KeepIds | src/controllers/Collaborator.controller.ts:62-64 | The keep-set is exactly the ids that the submitted items carry. |
| CollaboratorController.LastUpdate | src/controllers/Collaborator.controller.ts:72-80 | A stored id receives the name and code of the last item carrying it, or nothing when no item carries it or the id is empty. |
| CollaboratorController.Kept | src/controllers/Collaborator.controller.ts:66-70 | The destroy keeps exactly the stored rows whose id is in the keep-set, unchanged. |
| CollaboratorController.DestroyNotIn | src/controllers/Collaborator.controller.ts:66-70 | `destroy` with `Op.notIn` leaves the table equal to `Kept` of the old table. |
| CollaboratorController.UpdateRow | src/controllers/Collaborator.controller.ts:74-75 | `update` where id rewrites only that row, if it exists. |
| CollaboratorController.CreateRow | src/controllers/Collaborator.controller.ts:76-77 | `create` adds one row under an id that is new to the table and was neither stored at the start of the call nor submitted. |
| CollaboratorController.ApplyItems | src/controllers/Collaborator.controller.ts:72-80 | Item by item, an item with a non-empty id rewrites that row if it exists. Any other item adds its row under its created id. |
| CollaboratorController.WriteItems | src/controllers/Collaborator.controller.ts:72-80 | The item loop leaves the table equal to the item-by-item fold of updates and creates. The created ids are distinct, avoid every stored and submitted id, and exist exactly for the items without an id. |
| CollaboratorController.ApplyItemsApplied | src/controllers/Collaborator.controller.ts:72-80 | The fold adds only the created rows. Each pre-existing row ends with its last update or unchanged, and each created row holds its item. |
| CollaboratorController.AppliedKeys | src/controllers/Collaborator.controller.ts:72-80 | The writes add exactly the created ids to the table: an update never adds a row. |
| CollaboratorController.AppliedStored | src/controllers/Collaborator.controller.ts:74-75 | A row present before the writes survives them, and ends with the last update naming it or unchanged. |
| CollaboratorController.AppliedCreated | src/controllers/Collaborator.controller.ts:76-77 | Each created row holds its item, since no later update or create touches it. |
| CollaboratorController.DestroyThenApplyReconciles | src/controllers/Collaborator.controller.ts:62-80 | Destroy, then the fold, yields the full reconciliation described under `Update`. |
| CollaboratorController.Refused | src/controllers/Collaborator.controller.ts:72-80 | A write is refused when its row does not fit and it is a create, or an update of a stored row. An update naming no row writes nothing and is never refused. |
| CollaboratorController.Accepted | src/controllers/Collaborator.controller.ts:72-80 | The landed items are exactly the submitted items that are not refused. With no refusal they are the whole list. |
| CollaboratorController.RefusalAfterDestroy | src/controllers/Collaborator.controller.ts:66-80 | After a refused write the destroy still stands: no unsubmitted stored row is left, and every row left is a submitted stored row or one created for a landed item. |
| CollaboratorController.Update | src/controllers/Collaborator.controller.ts:44-100 | An invalid list gives type 2 and no change. With no refused write the result is type 0, and the final table holds exactly the stored rows whose id was submitted, each with its last update, and one fresh row per item without an id, holding that item. With a refused write the result is type 1: the destroy has happened, and every other write has landed as `Applied` describes. |
| CollaboratorController.NoIdCount | src/controllers/Collaborator.controller.ts:72-77 | The count equals the number of positions whose item has no id or the empty one. |
| CollaboratorController.NoIdCountStep | src/controllers/Collaborator.controller.ts:76-77 | One more item adds one to the count exactly when it has no non-empty id. |
| CollaboratorController.CreatedForPrefix | src/controllers/Collaborator.controller.ts:72-77 | The ids created for the first m items are those of a prefix of the created list. |
| CollaboratorController.CreatedIdsStep | src/controllers/Collaborator.controller.ts:76-77 | With distinct created ids, one more item adds one id when it creates a row and none otherwise. |
| CollaboratorController.CreatedCount | src/controllers/Collaborator.controller.ts:76-77 | As many rows are created as there are items without an id. |
| CollaboratorController.ReconciledSize | src/controllers/Collaborator.controller.ts:62-78 | The final size is \|stored ∩ submitted ids\| + \|items without id\|. An unsubmitted stored row is deleted, and a submitted id unknown to the table creates nothing. |
| CollaboratorController.SubmittedRowGetsItem | src/controllers/Collaborator.controller.ts:74-75 | A stored row named by an item, and by no later item, ends with that item's name and code. |
| CollaboratorController.CreatedRowsSurvive | src/controllers/Collaborator.controller.ts:66-72 | Rows created by the call are never deleted by it, and submitted stored rows survive. |
| StudentController.ValidStudent | src/controllers/Student.controller.ts:37-42 | `createStudentSchema`: the body holds a `student` object with four strings. |
| StudentController.EmailTaken | src/controllers/Student.controller.ts:147-149 | `findOne` by email finds a student with that email. |
| StudentController.NewStudent | src/controllers/Student.controller.ts:161-165 | A new student has a hashed password and no image. It has a refresh token exactly when the body sets one. |
| StudentController.FreshEmailKeepsUnique | src/controllers/Student.controller.ts:147-167 | Inserting under a new id a student whose email nobody has keeps emails unique. |
| StudentController.InsertStudent | src/controllers/Student.controller.ts:167 | `Student.create` adds exactly one row under a fresh id. Emails stay unique when the new one was not taken. |
| StudentController.Create | src/controllers/Student.controller.ts:131-187 | A missing or bad payload gives type 2 and a taken email gives type 3, both with no change. A new row the database refuses gives type 1 and no change. Otherwise one student is added with the given name, email and phone, hash(password), image null and the body's refresh token. Email uniqueness is preserved. |
| StudentController.TicketIdsOf | src/controllers/Student.controller.ts:237-239 | `ticketIds` is, position by position, the nested registrations' ticket ids. |
| StudentController.MarkUsed | src/controllers/Student.controller.ts:241-244 | Exactly the tickets whose id is listed become used. All others are unchanged, and no code changes. |
| StudentController.MarkUsedIdempotent | src/controllers/Student.controller.ts:241-244 | Marking the same ids twice is the same as marking them once. |
| StudentController.NestedRow | src/controllers/Student.controller.ts:228-235 | A nested registration becomes a row of the new student with its course, ticket and conclusion date. Its exam result and link are null. |
| StudentController.Saveable | src/controllers/Student.controller.ts:228-235 | The database accepts a nested registration: its course exists and its three dates are dates. |
| StudentController.InsertNested | src/controllers/Student.controller.ts:228-235 | A nested registration is inserted under a fresh id with the new student's id iff the database accepts it. Otherwise nothing is written. |
| StudentController.NestedStep | src/controllers/Student.controller.ts:228-235 | One more save extends the nested inserts by one fresh row, distinct from the earlier ones, or by nothing. |
| StudentController.NestedStepKeys | src/controllers/Student.controller.ts:228-235 | The key set grows by the new id, if any, and old rows stay. |
| StudentController.NestedStepRows | src/controllers/Student.controller.ts:228-235 | Every inserted row still holds its nested registration under an id new to the table. |
| StudentController.NestedStepDistinct | src/controllers/Student.controller.ts:228-235 | An id new to the table differs from every id inserted before it. |
| StudentController.SaveNested | src/controllers/Student.controller.ts:228-235 | Saving the next nested registration extends the nested inserts by one: a fresh row exactly when the database accepts it. |
| StudentController.InsertAllNested | src/controllers/Student.controller.ts:228-235 | Every nested registration the database accepts gets its own fresh row, the ids pairwise distinct. No other row is added or changed, and the result says whether all of them were saved. |
| StudentController.NestedCanDuplicatePair | src/controllers/Student.controller.ts:228-235 | Two accepted nested registrations for the same course give one student two registrations in that course. `trashCreate` does not keep the one-registration-per-pair rule. |
| StudentController.MarkTicketsUsed | src/controllers/Student.controller.ts:241-244 | The bulk ticket update leaves the tickets equal to `MarkUsed` of the old ones. |
| StudentController.TrashCreate | src/controllers/Student.controller.ts:189-264 | A missing body gives type 1 and a taken email gives type 3, both with no change at all. A student row the database refuses gives type 1, again with no change. Otherwise the student (hashed password, no image, the body's refresh token) and its accepted nested registrations are saved. When every nested registration is accepted, the result is type 0 and exactly the listed tickets become used. Otherwise the result is type 1 and no ticket changes. Email uniqueness is preserved. |
| StudentController.ValidPatch | src/controllers/Student.controller.ts:46-52 | `updateStudentSchema`: the body holds a `student` object with five optional strings. |
| StudentController.Field | src/controllers/Student.controller.ts:46-52 | A present optional field replaces the stored value, and a missing one keeps it. |
| StudentController.Patched | src/controllers/Student.controller.ts:288-292 | The row after `Student.update(student, ...)`: each present field is written, and a non-empty password is hashed. |
| StudentController.PatchedFields | src/controllers/Student.controller.ts:288-292 | Field by field: an absent field is kept and a present one is set. A non-empty password is stored hashed and "" is stored as is. `image` and `refreshToken` are kept, cleared or set as the body says. `lastLogin` has no effect. |
| StudentController.EmptyPatchKeepsStudent | src/controllers/Student.controller.ts:292 | A patch with no fields leaves the student as it was. |
| StudentController.UpdateCanDuplicateEmail | src/controllers/Student.controller.ts:266-312 | `update` does not check email uniqueness. Two students with distinct emails can end up sharing one. |
| StudentController.Update | src/controllers/Student.controller.ts:266-312 | A missing or bad patch gives type 2 and no change. A patched row the database refuses gives type 1 and no change. Otherwise only the student with the id is patched as `PatchedFields` describes, and no other student changes. |

## Left out

- PDF rendering in `finishCourse` (pdf-lib, fontkit, font-width measurement and text coordinates) is left out. It is floating-point work in foreign libraries. Only the store update and the link are modelled.
- The template download and the S3 upload are network I/O. Only their outcomes are modelled, as the booleans `templateFetched` and `uploaded`.
- `GenerateRandomString` is not part of this model. Its 10-character result is the input `randomCode`.
- bcrypt's random salt is left out. Hashing is a deterministic function parameter, so `hashSync` is modelled only as a function of the password.
- Three places run writes concurrently in the source: the `forEach(async …)` in registration `create`, the `Promise.all` in collaborator `update`, and the nested saves of `trashCreate` (`Student.create` with `include` saves the registrations through a `Promise.all`). They are modelled as sequential loops in list order (`StudentController.InsertAllNested` for the last). A response sent before the un-awaited lesson-progress inserts finish, and interleavings between sibling writes, are not captured.
- Lengths are counted in Unicode code points (Dafny `char`), not in JavaScript's UTF-16 code units. Names with characters outside the Basic Multilingual Plane are counted differently.
- A JSON number is a `real`. The collaborator `code` column is an INTEGER. The database's refusal of a code is left to `fits`; its rounding of a fraction it accepts is not modelled.
- `StudentController.TrashCreate`: the source validates none of the body's fields. The model handles a missing `student` object (type 1). It takes the fields inside the object as well-typed strings, so a missing field that would make `bcrypt` or `map` throw is not modelled. Keys of a nested registration beyond its five fields, which the nested insert would also write, are not modelled.
- `id` in the `where` clauses of `updateLessonProgress` and student `update` is taken to be a string. An `undefined` id, which Sequelize would reject, is not modelled.
- The model follows the controllers wherever the Sequelize model files or the migrations disagree with them. Sequelize's model-level not-null validation, its dropping of undeclared attributes, and the SQL errors a missing column would cause are not modelled. The disagreements are:
  - The registrations migration (src/migrations/20241213161907-registrations.js:35-42) has no `ticket_id`, `support_date`, `exam_result` or `degree_link` column, and its `conclusion_date` is NOT NULL. src/models/Registration.ts:44-51 declares the same columns. The controllers write all six fields, and write `conclusionDate` as null.
  - `image` is not-null in src/models/Student.ts:41-44 and nullable only in the students migration (src/migrations/20241213141613-students.js:31-34). Both sign-ups write it as null.
  - `lastLogin` is in `updateStudentSchema` (src/controllers/Student.controller.ts:51) but is a column in neither the model nor the migration. The model drops it.
  - `completed` is a not-null column with no default in src/models/LessonProgress.ts:45-48. The progress migration lacks it, and no controller writes it.
- `Store.Db.NewUuid`: uuid collisions are taken not to happen. The id it returns is new to every table.
- `CollaboratorController.CreateRow`: the same assumption, stretched. Its id is also taken to differ from every id stored when the call began and from every submitted id, even one that names no row. `AppliedCreated` relies on this: a later update naming a created id is ruled out.
- Logging, the `getAll`/`getById` handlers and the other controllers (courses, users, tickets, authentication) are not part of this model.
- `CollaboratorController.Update`: a body whose `collaborators` is not an array is the value `None`, with no finer distinction between such bodies.
- `StudentController.Update`: of the keys that no schema checks, only `image` and `refreshToken` are modelled. A body key `id`, which would rename the primary key and cascade to the registrations, is not modelled, and neither are the timestamp columns. Non-string values for the modelled keys are not modelled either.
- `StudentController.PatchedFields`: states the effect of the modelled keys only; a body `id` or timestamp is outside it, as for `Update`.
- `RegistrationController.UpdateLessonProgress`: of the keys that no schema checks, only `lessonId` and `registrationId` are modelled. A body `id`, a `completed` (see above) and a `null` for either foreign key, which the NOT NULL columns refuse, are not modelled. Whether the database accepts `watchedAt` as a date is not modelled: a present string is stored as is.
- `RegistrationController.FinishCourse`: whether the database accepts `conclusionDate` as a date is not modelled. The string is stored as is.
- `RegistrationController.Create`: a `ticket` is a string or absent. Other truthy JSON values, which would also trigger the code lookup, are not modelled.
- `StudentController.EmailTaken`, `RegistrationController.Enrolled` and `RegistrationController.HasCode` compare strings exactly. MySQL, the default dialect (src/config/database.ts:13), compares them case-insensitively under its default collation, so a lookup can find a row the model does not. This is not modelled.
