/** Student records (src/controllers/Student.controller.ts): signing a
    student up, the bulk sign-up that also enrols the student and spends
    the tickets used for it, and the partial update of a student's fields.
    Password hashing (bcrypt) is the parameter `hash`; whether the database
    accepts a date string is the parameter `validDate`. */
module StudentController {
  import opened Api
  import opened Store
  import RegistrationController

  /** The body's `student` object for `create`, before `createStudentSchema`.
      `refreshToken` is a column the schema does not check; the spread
      `...student` hands it to the insert as it came. */
  datatype StudentPayload = StudentPayload(name: Json, phone: Json, email: Json, password: Json,
                                           refreshToken: Assign<string>)

  /** `createStudentSchema`: an object (`None` is a body without one) with
      four strings. */
  predicate ValidStudent(p: Option<StudentPayload>) {
    && p.Some?
    && IsString(p.value.name) && IsString(p.value.phone) && IsString(p.value.email) && IsString(p.value.password)
  }

  /** `Student.findOne({ where: { email } })` finds a row. */
  predicate EmailTaken(students: map<Id, Student>, email: string) {
    exists s :: s in students && students[s].email == email
  }

  /** No two students share an email. */
  ghost predicate EmailsUnique(students: map<Id, Student>) {
    forall s1, s2 :: s1 in students && s2 in students && students[s1].email == students[s2].email ==> s1 == s2
  }

  /** The row a sign-up inserts: the password hashed, the image `null`
      whatever the body says, and the refresh token as the body sets it
      (none when the body leaves it out). */
  function NewStudent(name: string, email: string, password: string, phone: string,
                      refreshToken: Assign<string>, hash: string -> string): (s: Student)
    ensures s.image == None
    ensures refreshToken.Set? <==> s.refreshToken.Some?
    ensures s.password == hash(password)
  {
    Student(name, email, hash(password), phone, None, Assigned(refreshToken, None))
  }

  /** Adding a student whose email nobody has keeps emails unique, and
      every other student keeps theirs. */
  lemma {:induction false} FreshEmailKeepsUnique(students: map<Id, Student>, id: Id, s: Student)
    requires EmailsUnique(students) && id !in students && !EmailTaken(students, s.email)
    ensures EmailsUnique(students[id := s])
  {
    forall other | other in students
      ensures students[other].email != s.email
    {
    }
  }

  /** `Student.create(...)` under a fresh id; emails stay unique when
      the new one is not taken. */
  method InsertStudent(db: Db, s: Student) returns (id: Id)
    requires db.Valid()
    modifies db`students
    ensures db.Valid()
    ensures id !in old(db.students)
    ensures db.students == old(db.students)[id := s]
    ensures EmailsUnique(old(db.students)) && !EmailTaken(old(db.students), s.email) ==> EmailsUnique(db.students)
  {
    id := db.NewUuid();
    if EmailsUnique(db.students) && !EmailTaken(db.students, s.email) {
      FreshEmailKeepsUnique(db.students, id, s);
    }
    db.students := db.students[id := s];
  }

  /** `create`: validate; refuse an email already in use; insert the
      student with the password hashed and no image. `fits` says whether
      the database takes a row (each string within its column); a row it
      refuses makes the insert throw, answered with type 1 and no change. */
  method Create(db: Db, student: Option<StudentPayload>, hash: string -> string, fits: Student -> bool)
    returns (res: Response, ghost id: Id)
    requires db.Valid()
    modifies db`students
    ensures db.Valid()
    ensures !ValidStudent(student) ==> res == Rejected(Validation) && db.students == old(db.students)
    ensures ValidStudent(student) && EmailTaken(old(db.students), student.value.email.str) ==>
              res == Rejected(Business) && db.students == old(db.students)
    ensures ValidStudent(student) && !EmailTaken(old(db.students), student.value.email.str) ==>
              var p := student.value;
              var s := NewStudent(p.name.str, p.email.str, p.password.str, p.phone.str, p.refreshToken, hash);
              && (fits(s) ==> res == Done && id !in old(db.students) && db.students == old(db.students)[id := s])
              && (!fits(s) ==> res == Crashed && db.students == old(db.students))
    ensures EmailsUnique(old(db.students)) ==> EmailsUnique(db.students)
  {
    id := "";
    if !ValidStudent(student) {
      return Rejected(Validation), id;
    }
    var p := student.value;
    if EmailTaken(db.students, p.email.str) {
      return Rejected(Business), id;
    }
    var s := NewStudent(p.name.str, p.email.str, p.password.str, p.phone.str, p.refreshToken, hash);
    if !fits(s) {
      return Crashed, id;
    }
    id := InsertStudent(db, s);
    res := Done;
  }

  /** One element of `student.registrations` in the body of `trashCreate`. */
  datatype NestedRegistration = NestedRegistration(
    courseId: Id, ticketId: Option<Id>, registerDate: string, conclusionDate: string, supportDate: string)

  /** The body's `student` object for `trashCreate`; no schema checks it. */
  datatype TrashStudent = TrashStudent(name: string, email: string, phone: string, password: string,
                                       refreshToken: Assign<string>, registrations: seq<NestedRegistration>)

  /** The registration row a nested registration becomes. */
  function NestedRow(studentId: Id, r: NestedRegistration): (row: Registration)
    ensures row.studentId == studentId && row.courseId == r.courseId && row.ticketId == r.ticketId
    ensures row.conclusionDate == Some(r.conclusionDate)
    ensures row.examResult == None && row.degreeLink == None
  {
    Registration(studentId, r.courseId, r.registerDate, r.supportDate, r.ticketId, Some(r.conclusionDate), None, None)
  }

  /** The database accepts a nested registration: its course exists (the
      foreign key) and its three dates are dates. */
  predicate Saveable(courses: set<Id>, validDate: string -> bool, r: NestedRegistration) {
    r.courseId in courses && validDate(r.registerDate) && validDate(r.conclusionDate) && validDate(r.supportDate)
  }
  /** `student.registrations.map((registration) => registration.ticketId)` */
  function TicketIdsOf(regs: seq<NestedRegistration>): (ids: seq<Option<Id>>)
    ensures |ids| == |regs|
    ensures forall j :: 0 <= j < |regs| ==> ids[j] == regs[j].ticketId
  {
    if regs == [] then [] else [regs[0].ticketId] + TicketIdsOf(regs[1..])
  }

  /** `Ticket.update({ used: true }, { where: { id: { [Op.in]: ticketIds } } })`:
      the tickets whose id is listed become used; a `null` in the list
      matches nothing, and neither does an empty list. */
  function MarkUsed(tickets: map<Id, Ticket>, ticketIds: seq<Option<Id>>): (r: map<Id, Ticket>)
    ensures r.Keys == tickets.Keys
    ensures forall t :: t in tickets ==>
              r[t].code == tickets[t].code && (r[t].used <==> tickets[t].used || Some(t) in ticketIds)
  {
    map t | t in tickets :: if Some(t) in ticketIds then tickets[t].(used := true) else tickets[t]
  }

  /** Marking the same tickets twice changes nothing more. */
  lemma MarkUsedIdempotent(tickets: map<Id, Ticket>, ticketIds: seq<Option<Id>>)
    ensures MarkUsed(MarkUsed(tickets, ticketIds), ticketIds) == MarkUsed(tickets, ticketIds)
  {
    var once := MarkUsed(tickets, ticketIds);
    var twice := MarkUsed(once, ticketIds);
    forall t | t in tickets
      ensures twice[t] == once[t]
    {
      assert twice[t].code == once[t].code && twice[t].used == once[t].used;
    }
  }

  /** The registrations table went from `before` to `after` by saving the
      first `|regIds|` nested registrations: each one the database accepts
      was inserted as one row under the fresh id `regIds[j]`, the fresh ids
      all different; each one it refuses inserted nothing. */
  ghost predicate NestedInserted(before: map<Id, Registration>, after: map<Id, Registration>,
                                 courses: set<Id>, validDate: string -> bool, studentId: Id,
                                 regs: seq<NestedRegistration>, regIds: seq<Option<Id>>)
  {
    && |regIds| <= |regs|
    && (forall k :: k in after <==> k in before || Some(k) in regIds)
    && (forall k :: k in before ==> after[k] == before[k])
    && (forall j :: 0 <= j < |regIds| ==> (regIds[j].Some? <==> Saveable(courses, validDate, regs[j])))
    && (forall j :: 0 <= j < |regIds| && regIds[j].Some? ==>
          regIds[j].value !in before && after[regIds[j].value] == NestedRow(studentId, regs[j]))
    && (forall j1, j2 :: 0 <= j1 < j2 < |regIds| && regIds[j1].Some? ==> regIds[j1] != regIds[j2])
  }

  /** One nested registration is saved: when the database accepts it, it
      is inserted under a fresh id; otherwise the insert throws and nothing
      is written. */
  method InsertNested(db: Db, studentId: Id, r: NestedRegistration, validDate: string -> bool)
    returns (regId: Option<Id>)
    requires db.Valid() && studentId in db.students
    modifies db`registrations
    ensures db.Valid()
    ensures regId.Some? <==> Saveable(db.courses.Keys, validDate, r)
    ensures regId.None? ==> db.registrations == old(db.registrations)
    ensures regId.Some? ==>
      && regId.value !in old(db.registrations)
      && db.registrations == old(db.registrations)[regId.value := NestedRow(studentId, r)]
  {
    if !Saveable(db.courses.Keys, validDate, r) {
      return None;
    }
    var id := db.NewUuid();
    db.registrations := db.registrations[id := NestedRow(studentId, r)];
    regId := Some(id);
  }

  /** One more nested registration extends what has been inserted. */
  lemma NestedStep(before: map<Id, Registration>, mid: map<Id, Registration>, after: map<Id, Registration>,
                   courses: set<Id>, validDate: string -> bool, studentId: Id,
                   regs: seq<NestedRegistration>, regIds: seq<Option<Id>>, next: Option<Id>)
    requires |regIds| < |regs| && NestedInserted(before, mid, courses, validDate, studentId, regs, regIds)
    requires next.Some? <==> Saveable(courses, validDate, regs[|regIds|])
    requires next.None? ==> after == mid
    requires next.Some? ==> next.value !in mid && after == mid[next.value := NestedRow(studentId, regs[|regIds|])]
    ensures NestedInserted(before, after, courses, validDate, studentId, regs, regIds + [next])
  {
    NestedStepKeys(before, mid, after, regIds, next);
    NestedStepRows(before, mid, after, studentId, regs, regIds, next);
    NestedStepDistinct(mid, regIds, next);
  }

  /** The keys part of one more nested insert: the new key, if any, joins
      the table and the rows already there stay. */
  lemma NestedStepKeys(before: map<Id, Registration>, mid: map<Id, Registration>, after: map<Id, Registration>,
                       regIds: seq<Option<Id>>, next: Option<Id>)
    requires forall k :: k in mid <==> k in before || Some(k) in regIds
    requires forall k :: k in before ==> mid[k] == before[k]
    requires forall j :: 0 <= j < |regIds| && regIds[j].Some? ==> regIds[j].value !in before
    requires next.None? ==> after == mid
    requires next.Some? ==> next.value !in mid && after.Keys == mid.Keys + {next.value}
                            && forall k :: k in mid ==> after[k] == mid[k]
    ensures forall k :: k in after <==> k in before || Some(k) in regIds + [next]
    ensures forall k :: k in before ==> after[k] == before[k]
  {
    forall k
      ensures k in after <==> k in before || Some(k) in regIds + [next]
    {
      assert Some(k) in regIds + [next] <==> Some(k) in regIds || next == Some(k);
    }
  }

  /** The rows part of one more nested insert: every inserted row holds
      its nested registration under an id new to `before`. */
  lemma NestedStepRows(before: map<Id, Registration>, mid: map<Id, Registration>, after: map<Id, Registration>,
                       studentId: Id, regs: seq<NestedRegistration>, regIds: seq<Option<Id>>, next: Option<Id>)
    requires |regIds| < |regs|
    requires forall j :: 0 <= j < |regIds| && regIds[j].Some? ==>
               regIds[j].value !in before && regIds[j].value in mid && mid[regIds[j].value] == NestedRow(studentId, regs[j])
    requires forall k :: k in before ==> k in mid
    requires next.None? ==> after == mid
    requires next.Some? ==> next.value !in mid && after == mid[next.value := NestedRow(studentId, regs[|regIds|])]
    ensures forall j :: 0 <= j < |regIds| + 1 && (regIds + [next])[j].Some? ==>
              (regIds + [next])[j].value !in before && after[(regIds + [next])[j].value] == NestedRow(studentId, regs[j])
  {
    var ids := regIds + [next];
    forall j | 0 <= j < |ids| && ids[j].Some?
      ensures ids[j].value !in before && after[ids[j].value] == NestedRow(studentId, regs[j])
    {
      if j < |regIds| {
        assert ids[j] == regIds[j];
      }
    }
  }

  /** The distinctness part of one more nested insert: an id new to the
      table differs from every id inserted before it. */
  lemma NestedStepDistinct(mid: map<Id, Registration>, regIds: seq<Option<Id>>, next: Option<Id>)
    requires forall j :: 0 <= j < |regIds| && regIds[j].Some? ==> regIds[j].value in mid
    requires forall j1, j2 :: 0 <= j1 < j2 < |regIds| && regIds[j1].Some? ==> regIds[j1] != regIds[j2]
    requires next.Some? ==> next.value !in mid
    ensures forall j1, j2 :: 0 <= j1 < j2 < |regIds| + 1 && (regIds + [next])[j1].Some? ==>
              (regIds + [next])[j1] != (regIds + [next])[j2]
  {
    var ids := regIds + [next];
    forall j1, j2 | 0 <= j1 < j2 < |ids| && ids[j1].Some?
      ensures ids[j1] != ids[j2]
    {
      assert ids[j1] == regIds[j1];
      if j2 == |regIds| {
        assert ids[j1].value in mid;
      } else {
        assert ids[j2] == regIds[j2];
      }
    }
  }

  /** The save of the next nested registration, as one more step of the
      nested inserts. */
  method SaveNested(db: Db, studentId: Id, regs: seq<NestedRegistration>, i: nat, validDate: string -> bool,
                    ghost before: map<Id, Registration>, ghost regIds: seq<Option<Id>>)
    returns (regId: Option<Id>)
    requires db.Valid() && studentId in db.students && i == |regIds| < |regs|
    requires NestedInserted(before, db.registrations, db.courses.Keys, validDate, studentId, regs, regIds)
    modifies db`registrations
    ensures db.Valid()
    ensures regId.Some? <==> Saveable(db.courses.Keys, validDate, regs[i])
    ensures NestedInserted(before, db.registrations, db.courses.Keys, validDate, studentId, regs, regIds + [regId])
  {
    regId := InsertNested(db, studentId, regs[i], validDate);
    NestedStep(before, old(db.registrations), db.registrations, db.courses.Keys, validDate, studentId,
               regs, regIds, regId);
  }

  /** The nested part of `Student.create(newStudent, { include: [...] })`:
      every nested registration is saved; those the database accepts are
      inserted, and the result tells whether all of them were. */
  method InsertAllNested(db: Db, studentId: Id, regs: seq<NestedRegistration>, validDate: string -> bool)
    returns (allSaved: bool, ghost regIds: seq<Option<Id>>)
    requires db.Valid() && studentId in db.students
    modifies db`registrations
    ensures db.Valid()
    ensures allSaved <==> forall j :: 0 <= j < |regs| ==> Saveable(db.courses.Keys, validDate, regs[j])
    ensures |regIds| == |regs|
    ensures NestedInserted(old(db.registrations), db.registrations, db.courses.Keys, validDate, studentId,
                           regs, regIds)
  {
    allSaved, regIds := true, [];
    for i := 0 to |regs|
      invariant db.Valid() && |regIds| == i
      invariant NestedInserted(old(db.registrations), db.registrations, db.courses.Keys, validDate, studentId,
                               regs, regIds)
      invariant allSaved <==> forall j :: 0 <= j < i ==> regIds[j].Some?
    {
      var regId := SaveNested(db, studentId, regs, i, validDate, old(db.registrations), regIds);
      regIds := regIds + [regId];
      if regId.None? {
        allSaved := false;
      }
    }
  }

  /** Two nested registrations for the same course, both accepted, become
      two registrations of one student in one course: `trashCreate` does not
      keep the one-registration-per-pair rule that registration `create`
      enforces. */
  lemma {:induction false} NestedCanDuplicatePair(before: map<Id, Registration>, after: map<Id, Registration>,
                                                  courses: set<Id>, validDate: string -> bool, studentId: Id,
                                                  r: NestedRegistration, regIds: seq<Option<Id>>)
    requires Saveable(courses, validDate, r)
    requires |regIds| == 2 && NestedInserted(before, after, courses, validDate, studentId, [r, r], regIds)
    ensures !RegistrationController.OneRegistrationPerPair(after)
  {
    var k1, k2 := regIds[0].value, regIds[1].value;
    assert after[k1] == after[k2] == NestedRow(studentId, r);
    assert k1 != k2;
  }

  /** Setting some tickets used keeps every table's constraints. */
  method MarkTicketsUsed(db: Db, ticketIds: seq<Option<Id>>)
    requires db.Valid()
    modifies db`tickets
    ensures db.Valid()
    ensures db.tickets == MarkUsed(old(db.tickets), ticketIds)
  {
    db.tickets := MarkUsed(db.tickets, ticketIds);
  }

  /** The student row `trashCreate` saves for a body. */
  function StudentOf(p: TrashStudent, hash: string -> string): Student {
    NewStudent(p.name, p.email, p.password, p.phone, p.refreshToken, hash)
  }

  /** `trashCreate`: no schema, so a body without `student` throws on
      `student.email` (type 1) before anything is written; refuse an email
      already in use; create the student together with its nested
      registrations; then mark used every ticket a nested registration
      names. A nested registration the database refuses (a missing course
      or a date that is not one) makes the create throw (type 1) after the
      student and the other registrations were saved, and before any ticket
      is touched. A student row the database refuses (`fits`, as for
      `Create`) makes the create throw before anything is saved. */
  method TrashCreate(db: Db, student: Option<TrashStudent>, hash: string -> string, validDate: string -> bool,
                     fits: Student -> bool)
    returns (res: Response, ghost studentId: Id, ghost regIds: seq<Option<Id>>)
    requires db.Valid()
    modifies db`students, db`registrations, db`tickets
    ensures db.Valid()
    ensures student.None? ==> res == Crashed && unchanged(db)
    ensures student.Some? && EmailTaken(old(db.students), student.value.email) ==>
      res == Rejected(Business) && unchanged(db)
    ensures student.Some? && !EmailTaken(old(db.students), student.value.email)
            && !fits(StudentOf(student.value, hash)) ==>
      res == Crashed && unchanged(db)
    ensures student.Some? && !EmailTaken(old(db.students), student.value.email)
            && fits(StudentOf(student.value, hash)) ==>
      var p := student.value;
      && studentId !in old(db.students)
      && db.students == old(db.students)[studentId := StudentOf(p, hash)]
      && |regIds| == |p.registrations|
      && NestedInserted(old(db.registrations), db.registrations, db.courses.Keys, validDate, studentId,
                        p.registrations, regIds)
    ensures student.Some? && !EmailTaken(old(db.students), student.value.email)
            && fits(StudentOf(student.value, hash))
            && (forall j :: 0 <= j < |student.value.registrations| ==>
                  Saveable(db.courses.Keys, validDate, student.value.registrations[j])) ==>
      res == Done && db.tickets == MarkUsed(old(db.tickets), TicketIdsOf(student.value.registrations))
    ensures student.Some? && !EmailTaken(old(db.students), student.value.email)
            && fits(StudentOf(student.value, hash))
            && !(forall j :: 0 <= j < |student.value.registrations| ==>
                   Saveable(db.courses.Keys, validDate, student.value.registrations[j])) ==>
      res == Crashed && db.tickets == old(db.tickets)
    ensures EmailsUnique(old(db.students)) ==> EmailsUnique(db.students)
  {
    studentId, regIds := "", [];
    if student.None? {
      return Crashed, studentId, regIds;
    }
    var p := student.value;
    if EmailTaken(db.students, p.email) {
      return Rejected(Business), studentId, regIds;
    }
    var s := StudentOf(p, hash);
    if !fits(s) {
      return Crashed, studentId, regIds;
    }
    var newId := InsertStudent(db, s);
    studentId := newId;
    var allSaved;
    allSaved, regIds := InsertAllNested(db, newId, p.registrations, validDate);
    if !allSaved {
      return Crashed, studentId, regIds;
    }
    MarkTicketsUsed(db, TicketIdsOf(p.registrations));
    res := Done;
  }

  /** The body's `student` object for `update`, before `updateStudentSchema`.
      `lastLogin` is checked by the schema but is no column of the table,
      so the update drops it; `image` and `refreshToken` are columns the
      schema does not check, and `Student.update(student, ...)` writes them
      as they came. */
  datatype StudentPatch = StudentPatch(name: Json, phone: Json, email: Json, password: Json, lastLogin: Json,
                                       image: Assign<string>, refreshToken: Assign<string>)

  /** `updateStudentSchema`: an object (`None` is a body without one) with
      five optional strings. */
  predicate ValidPatch(p: Option<StudentPatch>) {
    && p.Some?
    && IsOptionalString(p.value.name) && IsOptionalString(p.value.phone) && IsOptionalString(p.value.email)
    && IsOptionalString(p.value.password) && IsOptionalString(p.value.lastLogin)
  }

  /** A present string field replaces the stored value; a missing one
      keeps it. */
  function Field(j: Json, current: string): (v: string)
    requires IsOptionalString(j)
    ensures j.JString? ==> v == j.str
    ensures j.JMissing? ==> v == current
  {
    if j.JString? then j.str else current
  }

  /** What `Student.update(student, { where: { id } })` makes of one row:
      each field present in the patch is set, the others are kept; a
      non-empty password is stored hashed, an empty one as it is. */
  function Patched(s: Student, p: StudentPatch, hash: string -> string): (r: Student)
    requires ValidPatch(Some(p))
  {
    Student(
      Field(p.name, s.name),
      Field(p.email, s.email),
      if p.password.JString? && p.password.str != "" then hash(p.password.str) else Field(p.password, s.password),
      Field(p.phone, s.phone),
      Assigned(p.image, s.image),
      Assigned(p.refreshToken, s.refreshToken))
  }

  /** The effect of a patch, field by field: a field absent from the patch
      keeps its value; a present one takes the given value, except that a
      non-empty password is hashed; `image` and `refreshToken` are kept,
      cleared or set as the body says; `lastLogin` has no effect. */
  lemma PatchedFields(s: Student, p: StudentPatch, hash: string -> string)
    requires ValidPatch(Some(p))
    ensures p.name.JMissing? ==> Patched(s, p, hash).name == s.name
    ensures p.name.JString? ==> Patched(s, p, hash).name == p.name.str
    ensures p.email.JMissing? ==> Patched(s, p, hash).email == s.email
    ensures p.email.JString? ==> Patched(s, p, hash).email == p.email.str
    ensures p.phone.JMissing? ==> Patched(s, p, hash).phone == s.phone
    ensures p.phone.JString? ==> Patched(s, p, hash).phone == p.phone.str
    ensures p.password.JMissing? ==> Patched(s, p, hash).password == s.password
    ensures p.password == JString("") ==> Patched(s, p, hash).password == ""
    ensures p.password.JString? && p.password.str != "" ==> Patched(s, p, hash).password == hash(p.password.str)
    ensures p.image.Keep? ==> Patched(s, p, hash).image == s.image
    ensures p.image.SetNull? ==> Patched(s, p, hash).image == None
    ensures p.image.Set? ==> Patched(s, p, hash).image == Some(p.image.value)
    ensures p.refreshToken.Keep? ==> Patched(s, p, hash).refreshToken == s.refreshToken
    ensures p.refreshToken.SetNull? ==> Patched(s, p, hash).refreshToken == None
    ensures p.refreshToken.Set? ==> Patched(s, p, hash).refreshToken == Some(p.refreshToken.value)
    ensures Patched(s, p, hash) == Patched(s, p.(lastLogin := JMissing), hash)
  {
  }

  /** A patch with every field missing leaves the student as it is. */
  lemma EmptyPatchKeepsStudent(s: Student, hash: string -> string)
    ensures Patched(s, StudentPatch(JMissing, JMissing, JMissing, JMissing, JMissing, Keep, Keep), hash) == s
  {
  }

  /** `update` does not check the new email against the other students:
      two students with different emails end up sharing one. */
  lemma UpdateCanDuplicateEmail(hash: string -> string)
    ensures var before := map["a" := Student("A", "a@x", "p", "1", None, None),
                               "b" := Student("B", "b@x", "q", "2", None, None)];
            var p := StudentPatch(JMissing, JMissing, JString("a@x"), JMissing, JMissing, Keep, Keep);
            && EmailsUnique(before)
            && !EmailsUnique(before["b" := Patched(before["b"], p, hash)])
  {
    var before := map["a" := Student("A", "a@x", "p", "1", None, None),
                      "b" := Student("B", "b@x", "q", "2", None, None)];
    var p := StudentPatch(JMissing, JMissing, JString("a@x"), JMissing, JMissing, Keep, Keep);
    var after := before["b" := Patched(before["b"], p, hash)];
    assert after["a"].email == after["b"].email;
    assert "a" != "b";
  }

  /** `update`: validate the patch, hash a non-empty password, and apply
      the patch to the student with the given id, if there is one; no
      other student changes. A patched row the database refuses (`fits`,
      as for `Create`) makes the update throw (type 1) with no change; with
      no row under the id nothing is written and nothing is refused. */
  method Update(db: Db, id: Id, student: Option<StudentPatch>, hash: string -> string, fits: Student -> bool)
    returns (res: Response)
    requires db.Valid()
    modifies db`students
    ensures db.Valid()
    ensures !ValidPatch(student) ==> res == Rejected(Validation) && db.students == old(db.students)
    ensures ValidPatch(student) && id in old(db.students) && !fits(Patched(old(db.students)[id], student.value, hash)) ==>
      res == Crashed && db.students == old(db.students)
    ensures ValidPatch(student) && (id in old(db.students) ==> fits(Patched(old(db.students)[id], student.value, hash))) ==>
      && res == Done
      && db.students == UpdateById(old(db.students), id, (s: Student) => Patched(s, student.value, hash))
  {
    if !ValidPatch(student) {
      return Rejected(Validation);
    }
    var p := student.value;
    if id in db.students && !fits(Patched(db.students[id], p, hash)) {
      return Crashed;
    }
    db.students := UpdateById(db.students, id, (s: Student) => Patched(s, p, hash));
    res := Done;
  }
}
