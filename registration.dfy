/** The enrollment workflow (src/controllers/Registration.controller.ts):
    creating a registration from a ticket, recording watched lessons,
    finishing a course with its certificate link, and deleting a
    registration. Each step writes to the store as soon as it runs; there
    is no transaction, so a write made before a later failure stays. */
module RegistrationController {
  import opened Api
  import opened Store

  /** The body's `registration` object, before `createRegistrationSchema`. */
  datatype RegistrationPayload = RegistrationPayload(studentId: Json, courseId: Json, registerDate: Json, supportDate: Json)

  /** `createRegistrationSchema`: an object (`None` is a body without one)
      with four strings. */
  predicate ValidRegistration(p: Option<RegistrationPayload>) {
    && p.Some?
    && IsString(p.value.studentId) && IsString(p.value.courseId)
    && IsString(p.value.registerDate) && IsString(p.value.supportDate)
  }

  /** `Registration.findOne({ where: { studentId, courseId } })` finds a row. */
  predicate Enrolled(registrations: map<Id, Registration>, studentId: Id, courseId: Id) {
    exists r :: r in registrations && registrations[r].studentId == studentId && registrations[r].courseId == courseId
  }

  /** At most one registration per (student, course) pair. */
  ghost predicate OneRegistrationPerPair(registrations: map<Id, Registration>) {
    forall r1, r2 ::
      r1 in registrations && r2 in registrations
      && registrations[r1].studentId == registrations[r2].studentId
      && registrations[r1].courseId == registrations[r2].courseId
      ==> r1 == r2
  }

  /** `Ticket.findOne({ where: { code } })` finds a row. */
  predicate HasCode(tickets: map<Id, Ticket>, code: string) {
    exists t :: t in tickets && tickets[t].code == code
  }

  /** A ticket with this code exists and has not been used yet. */
  predicate Redeemable(tickets: map<Id, Ticket>, code: string) {
    exists t :: t in tickets && tickets[t].code == code && !tickets[t].used
  }

  /** The lessons of a course: those whose `courseId` names it. */
  function LessonsOf(lessons: map<Id, Lesson>, courseId: Id): set<Id> {
    set l | l in lessons && lessons[l].courseId == courseId
  }

  /** `s` lists every element of `ids` once, in some order. */
  ghost predicate Enumerates(s: seq<Id>, ids: set<Id>) {
    Distinct(s) && (forall l :: l in s <==> l in ids)
  }

  /** `Lesson.findAll({ where: { courseId } })`: the ids of the course's
      lessons, each once, in an order the database chooses. */
  method FindLessons(db: Db, courseId: Id) returns (ids: seq<Id>)
    ensures Enumerates(ids, LessonsOf(db.lessons, courseId))
  {
    var todo := LessonsOf(db.lessons, courseId);
    ids := [];
    while todo != {}
      invariant Distinct(ids)
      invariant forall l :: l in LessonsOf(db.lessons, courseId) <==> l in todo || l in ids
      invariant forall l :: l in todo ==> l !in ids
      decreases |todo|
    {
      var l :| l in todo;
      ids := ids + [l];
      todo := todo - {l};
    }
  }

  /** The progress table went from `before` to `after` by adding, for the
      `j`-th lesson of `lessons`, one fresh row `rows[j]` that links the
      registration to that lesson with no watched-at time, and nothing
      else. */
  ghost predicate ProgressCreated(before: map<Id, LessonProgress>, after: map<Id, LessonProgress>,
                                  regId: Id, lessons: seq<Id>, rows: seq<Id>)
  {
    && |rows| == |lessons|
    && (forall k :: k in after <==> k in before || k in rows)
    && (forall j :: 0 <= j < |rows| ==>
          rows[j] !in before && after[rows[j]] == LessonProgress(regId, lessons[j], None))
    && (forall k :: k in before ==> after[k] == before[k])
  }

  /** The new rows of the progress table that point at lesson `lessonId`. */
  ghost function NewRowsFor(before: map<Id, LessonProgress>, after: map<Id, LessonProgress>, lessonId: Id): set<Id> {
    set k | k in after && k !in before && after[k].lessonId == lessonId
  }

  /** The rows of the progress table that belong to registration `regId`. */
  ghost function RowsOf(progress: map<Id, LessonProgress>, regId: Id): set<Id> {
    set k | k in progress && progress[k].registrationId == regId
  }

  /** After the per-lesson inserts for a listing of the course's lessons,
      every lesson of the course has exactly one new row, a lesson of
      another course has none, and every new row belongs to the new
      registration and is not yet watched. */
  lemma ExactlyOneRowPerLesson(before: map<Id, LessonProgress>, after: map<Id, LessonProgress>,
                               regId: Id, lessons: seq<Id>, lessonIds: set<Id>, rows: seq<Id>, lessonId: Id)
    requires Enumerates(lessons, lessonIds)
    requires ProgressCreated(before, after, regId, lessons, rows)
    ensures |NewRowsFor(before, after, lessonId)| == if lessonId in lessonIds then 1 else 0
    ensures forall k :: k in after && k !in before ==>
              after[k].registrationId == regId && after[k].watchedAt == None && after[k].lessonId in lessonIds
  {
    forall k | k in after && k !in before
      ensures after[k].registrationId == regId && after[k].watchedAt == None && after[k].lessonId in lessonIds
    {
      var j :| 0 <= j < |rows| && rows[j] == k;
      assert lessons[j] in lessons;
    }
    if lessonId in lessonIds {
      var i :| 0 <= i < |lessons| && lessons[i] == lessonId;
      forall k | k in NewRowsFor(before, after, lessonId)
        ensures k == rows[i]
      {
        var j :| 0 <= j < |rows| && rows[j] == k;
        assert lessons[j] == lessonId;
      }
      assert NewRowsFor(before, after, lessonId) == {rows[i]};
    } else {
      assert NewRowsFor(before, after, lessonId) == {};
    }
  }

  /** A registration that had no progress rows before ends up with exactly
      as many rows as its course has lessons. */
  lemma RowCountIsLessonCount(before: map<Id, LessonProgress>, after: map<Id, LessonProgress>,
                              regId: Id, lessons: seq<Id>, lessonIds: set<Id>, rows: seq<Id>)
    requires Enumerates(lessons, lessonIds)
    requires ProgressCreated(before, after, regId, lessons, rows)
    requires RowsOf(before, regId) == {}
    ensures |RowsOf(after, regId)| == |lessonIds|
  {
    assert Distinct(rows) by {
      forall i, j | 0 <= i < j < |rows|
        ensures rows[i] != rows[j]
      {
        assert after[rows[i]].lessonId == lessons[i];
        assert after[rows[j]].lessonId == lessons[j];
      }
    }
    DistinctCard(rows);
    DistinctCard(lessons);
    forall k | k in RowsOf(after, regId)
      ensures k in rows
    {
      assert k !in RowsOf(before, regId);
    }
    assert RowsOf(after, regId) == (set x | x in rows);
    assert lessonIds == (set x | x in lessons);
  }

  /** `LessonProgress.create({ lessonId, registrationId, watchedAt: null })`
      under a fresh id. */
  method InsertProgressRow(db: Db, regId: Id, lessonId: Id) returns (id: Id)
    requires db.Valid() && regId in db.registrations && lessonId in db.lessons
    modifies db`progress
    ensures db.Valid()
    ensures id !in old(db.progress)
    ensures db.progress == old(db.progress)[id := LessonProgress(regId, lessonId, None)]
  {
    id := db.NewUuid();
    db.progress := db.progress[id := LessonProgress(regId, lessonId, None)];
  }

  /** The `forEach` over the lessons found: one insert per lesson, in the
      order of the listing. */
  method CreateLessonProgress(db: Db, regId: Id, lessons: seq<Id>) returns (ghost rows: seq<Id>)
    requires db.Valid() && regId in db.registrations
    requires forall j :: 0 <= j < |lessons| ==> lessons[j] in db.lessons
    modifies db`progress
    ensures db.Valid()
    ensures ProgressCreated(old(db.progress), db.progress, regId, lessons, rows)
  {
    rows := [];
    for i := 0 to |lessons|
      invariant db.Valid()
      invariant ProgressCreated(old(db.progress), db.progress, regId, lessons[..i], rows)
    {
      label step:
      var id := InsertProgressRow(db, regId, lessons[i]);
      ProgressStep(old(db.progress), old@step(db.progress), db.progress, regId, lessons, rows, i, id);
      rows := rows + [id];
    }
    assert lessons[..|lessons|] == lessons;
  }

  /** One more insert extends what the loop has created. */
  lemma ProgressStep(before: map<Id, LessonProgress>, mid: map<Id, LessonProgress>, after: map<Id, LessonProgress>,
                     regId: Id, lessons: seq<Id>, rows: seq<Id>, i: nat, id: Id)
    requires i < |lessons| && ProgressCreated(before, mid, regId, lessons[..i], rows)
    requires id !in mid && after == mid[id := LessonProgress(regId, lessons[i], None)]
    ensures ProgressCreated(before, after, regId, lessons[..i + 1], rows + [id])
  {
    assert lessons[..i + 1][..i] == lessons[..i];
    var ids := rows + [id];
    forall k
      ensures k in after <==> k in before || k in ids
    {
      assert k in ids <==> k in rows || k == id;
    }
  }

  /** The ticket part of `create`: look the code up, refuse a missing or
      used ticket, otherwise mark it used (`findTicket.update({ used: true })`)
      and hand back its id. */
  method RedeemTicket(db: Db, code: string) returns (ok: bool, ticketId: Id)
    requires db.Valid()
    modifies db`tickets
    ensures db.Valid()
    ensures ok <==> Redeemable(old(db.tickets), code)
    ensures !ok ==> db.tickets == old(db.tickets)
    ensures ok ==>
      && ticketId in old(db.tickets) && old(db.tickets)[ticketId].code == code
      && db.tickets == old(db.tickets)[ticketId := Ticket(code, true)]
  {
    ticketId := "";
    if !HasCode(db.tickets, code) {
      return false, ticketId;
    }
    var t :| t in db.tickets && db.tickets[t].code == code;
    if db.tickets[t].used {
      return false, ticketId;
    }
    db.tickets := db.tickets[t := db.tickets[t].(used := true)];
    ok, ticketId := true, t;
  }

  /** The checks of `create` that come before anything is written: the
      schema, then an existing registration for the pair, then (only when a
      non-empty code is given) a ticket that can be redeemed. */
  predicate PassesChecks(registration: Option<RegistrationPayload>, ticket: Option<string>,
                         registrations: map<Id, Registration>, tickets: map<Id, Ticket>)
  {
    && ValidRegistration(registration)
    && !Enrolled(registrations, registration.value.studentId.str, registration.value.courseId.str)
    && (Truthy(ticket) ==> Redeemable(tickets, ticket.value))
  }

  /** The database accepts the new registration row: the student and the
      course exist (the foreign keys) and both dates are dates. */
  predicate Insertable(students: map<Id, Student>, courses: map<Id, Course>, validDate: string -> bool,
                       p: RegistrationPayload)
    requires ValidRegistration(Some(p))
  {
    && p.studentId.str in students && p.courseId.str in courses
    && validDate(p.registerDate.str) && validDate(p.supportDate.str)
  }

  /** `create`: validate, refuse a second registration for the same pair,
      redeem the ticket when a code is given, insert the registration, then
      one progress row per lesson of the course. The ticket is marked used
      before the insert, so an insert that fails (a student or course the
      foreign keys do not find, or a date the database refuses) leaves it
      used. */
  method Create(db: Db, registration: Option<RegistrationPayload>, ticket: Option<string>, validDate: string -> bool)
    returns (res: Response, ghost ticketId: Option<Id>, ghost regId: Id, ghost lessons: seq<Id>, ghost rows: seq<Id>)
    requires db.Valid()
    modifies db`tickets, db`registrations, db`progress
    ensures db.Valid()
    ensures !ValidRegistration(registration) ==> res == Rejected(Validation) && unchanged(db)
    ensures ValidRegistration(registration) && !PassesChecks(registration, ticket, old(db.registrations), old(db.tickets)) ==>
              res == Rejected(Business) && unchanged(db)
    ensures PassesChecks(registration, ticket, old(db.registrations), old(db.tickets)) ==>
              && (!Truthy(ticket) ==> ticketId == None && db.tickets == old(db.tickets))
              && (Truthy(ticket) ==>
                    && ticketId.Some? && ticketId.value in old(db.tickets)
                    && old(db.tickets)[ticketId.value] == Ticket(ticket.value, false)
                    && db.tickets == old(db.tickets)[ticketId.value := Ticket(ticket.value, true)])
    ensures PassesChecks(registration, ticket, old(db.registrations), old(db.tickets))
            && !Insertable(old(db.students), old(db.courses), validDate, registration.value) ==>
              res == Crashed && db.registrations == old(db.registrations) && db.progress == old(db.progress)
    ensures PassesChecks(registration, ticket, old(db.registrations), old(db.tickets))
            && Insertable(old(db.students), old(db.courses), validDate, registration.value) ==>
              var p := registration.value;
              && res == Done
              && regId !in old(db.registrations)
              && db.registrations == old(db.registrations)[regId := Registration(
                   p.studentId.str, p.courseId.str, p.registerDate.str, p.supportDate.str, ticketId, None, None, None)]
              && Enumerates(lessons, LessonsOf(db.lessons, p.courseId.str))
              && ProgressCreated(old(db.progress), db.progress, regId, lessons, rows)
    ensures OneRegistrationPerPair(old(db.registrations)) ==> OneRegistrationPerPair(db.registrations)
  {
    ticketId, regId, lessons, rows := None, "", [], [];
    if !ValidRegistration(registration) {
      return Rejected(Validation), ticketId, regId, lessons, rows;
    }
    var p := registration.value;
    var studentId, courseId := p.studentId.str, p.courseId.str;
    if Enrolled(db.registrations, studentId, courseId) {
      return Rejected(Business), ticketId, regId, lessons, rows;
    }
    var storedTicket: Option<Id> := None;
    if Truthy(ticket) {
      var ok, t := RedeemTicket(db, ticket.value);
      if !ok {
        return Rejected(Business), ticketId, regId, lessons, rows;
      }
      storedTicket := Some(t);
    }
    ticketId := storedTicket;
    if !Insertable(db.students, db.courses, validDate, p) {
      // Registration.create throws; the catch answers 500
      return Crashed, ticketId, regId, lessons, rows;
    }
    regId, lessons, rows := InsertRegistration(db, studentId, courseId,
      p.registerDate.str, p.supportDate.str, storedTicket);
    res := Done;
  }

  /** `Registration.create(...)` with null conclusion date, exam result and
      degree link, followed by one progress row per lesson of the course. */
  method InsertRegistration(db: Db, studentId: Id, courseId: Id, registerDate: string, supportDate: string,
                            ticketId: Option<Id>)
    returns (regId: Id, ghost lessons: seq<Id>, ghost rows: seq<Id>)
    requires db.Valid() && studentId in db.students && courseId in db.courses
    modifies db`registrations, db`progress
    ensures db.Valid()
    ensures regId !in old(db.registrations)
    ensures db.registrations == old(db.registrations)[regId := Registration(
              studentId, courseId, registerDate, supportDate, ticketId, None, None, None)]
    ensures Enumerates(lessons, LessonsOf(db.lessons, courseId))
    ensures ProgressCreated(old(db.progress), db.progress, regId, lessons, rows)
  {
    regId := db.NewUuid();
    db.registrations := db.registrations[regId := Registration(
      studentId, courseId, registerDate, supportDate, ticketId, None, None, None)];
    var found := FindLessons(db, courseId);
    forall j | 0 <= j < |found|
      ensures found[j] in db.lessons
    {
      assert found[j] in found;
    }
    rows := CreateLessonProgress(db, regId, found);
    lessons := found;
  }

  /** The body's `lessonProgress` object, before `updateLessonProgressSchema`.
      Besides `watchedAt`, the object may carry the columns `lessonId` and
      `registrationId`, which the schema does not check and
      `LessonProgress.update(lessonProgress, ...)` writes as they came. */
  datatype LessonProgressPayload = LessonProgressPayload(watchedAt: Json, lessonId: Option<Id>, registrationId: Option<Id>)

  /** `updateLessonProgressSchema`: an object (`None` is a body without one)
      whose `watchedAt` is an optional string. */
  predicate ValidProgress(p: Option<LessonProgressPayload>) {
    p.Some? && IsOptionalString(p.value.watchedAt)
  }

  /** The lesson and the registration the payload points a row at exist,
      as the foreign keys demand. */
  predicate ReferencesExist(lessons: map<Id, Lesson>, registrations: map<Id, Registration>, p: LessonProgressPayload) {
    && (p.lessonId.Some? ==> p.lessonId.value in lessons)
    && (p.registrationId.Some? ==> p.registrationId.value in registrations)
  }

  /** What the update makes of one progress row: every key present in the
      payload is written, the others are kept. */
  function Progressed(row: LessonProgress, p: LessonProgressPayload): LessonProgress
    requires IsOptionalString(p.watchedAt)
  {
    LessonProgress(p.registrationId.GetOr(row.registrationId), p.lessonId.GetOr(row.lessonId),
                   if p.watchedAt.JString? then Some(p.watchedAt.str) else row.watchedAt)
  }

  /** The effect of the update on a row, key by key: the watched-at time
      is overwritten when given (a second call simply overwrites it) and
      kept when missing; the row is moved to the given lesson or
      registration, if any. */
  lemma ProgressedFields(row: LessonProgress, p: LessonProgressPayload)
    requires IsOptionalString(p.watchedAt)
    ensures p.watchedAt.JString? ==> Progressed(row, p).watchedAt == Some(p.watchedAt.str)
    ensures p.watchedAt.JMissing? ==> Progressed(row, p).watchedAt == row.watchedAt
    ensures p.lessonId.None? ==> Progressed(row, p).lessonId == row.lessonId
    ensures p.lessonId.Some? ==> Progressed(row, p).lessonId == p.lessonId.value
    ensures p.registrationId.None? ==> Progressed(row, p).registrationId == row.registrationId
    ensures p.registrationId.Some? ==> Progressed(row, p).registrationId == p.registrationId.value
    ensures p == LessonProgressPayload(JMissing, None, None) ==> Progressed(row, p) == row
  {
  }

  /** `updateLessonProgress`: validate the payload, then write it over the
      row with the given id, if there is one. When that row exists and the
      payload points it at a lesson or registration that does not, the
      foreign key makes the update throw (type 1) and nothing changes;
      with no such row nothing is written and nothing is checked. Other
      rows never change. */
  method UpdateLessonProgress(db: Db, id: Id, lessonProgress: Option<LessonProgressPayload>) returns (res: Response)
    requires db.Valid()
    modifies db`progress
    ensures db.Valid()
    ensures !ValidProgress(lessonProgress) ==> res == Rejected(Validation) && db.progress == old(db.progress)
    ensures ValidProgress(lessonProgress) && id in old(db.progress)
            && !ReferencesExist(db.lessons, db.registrations, lessonProgress.value) ==>
      res == Crashed && db.progress == old(db.progress)
    ensures ValidProgress(lessonProgress)
            && (id !in old(db.progress) || ReferencesExist(db.lessons, db.registrations, lessonProgress.value)) ==>
      && res == Done
      && db.progress == UpdateById(old(db.progress), id, (row: LessonProgress) => Progressed(row, lessonProgress.value))
  {
    if !ValidProgress(lessonProgress) {
      return Rejected(Validation);
    }
    var p := lessonProgress.value;
    if id in db.progress && !ReferencesExist(db.lessons, db.registrations, p) {
      return Crashed;
    }
    db.progress := UpdateById(db.progress, id, (row: LessonProgress) => Progressed(row, p));
    res := Done;
  }

  /** The body's `finishData`, before `updateRegistrationSchema`. */
  datatype RegisterData = RegisterData(id: Json, examResult: Json, conclusionDate: Json)
  datatype DegreeData = DegreeData(studentName: Json, courseName: Json, duration: Json)
  datatype FinishData = FinishData(registerData: Option<RegisterData>, degreeData: Option<DegreeData>)

  /** `updateRegistrationSchema`: an object (`None` is a body without one)
      holding the two objects, with a string id, a number exam result and
      four more strings. */
  predicate ValidFinish(d: Option<FinishData>) {
    && d.Some? && d.value.registerData.Some? && d.value.degreeData.Some?
    && var r, g := d.value.registerData.value, d.value.degreeData.value;
    && IsString(r.id) && IsNumber(r.examResult) && IsString(r.conclusionDate)
    && IsString(g.studentName) && IsString(g.courseName) && IsString(g.duration)
  }

  /** Length of the validation code, which is also the certificate's key in
      the bucket. */
  const CodeLength: nat := 10

  const LinkScheme := "https://"

  /** The public address of an object in an S3 bucket:
      https://<bucket>.s3.<region>.amazonaws.com/<key>. It starts with the
      scheme and ends with the key, so the key can be read back off it. */
  function DegreeLink(bucket: string, region: string, code: string): (link: string)
    ensures |link| > |LinkScheme| + |code| && link[..|LinkScheme|] == LinkScheme
    ensures link[|link| - |code|..] == code
  {
    LinkScheme + bucket + ".s3." + region + ".amazonaws.com/" + code
  }

  /** Two certificates with different codes get different links. */
  lemma DistinctCodesDistinctLinks(bucket: string, region: string, code1: string, code2: string)
    requires |code1| == |code2| == CodeLength && code1 != code2
    ensures DegreeLink(bucket, region, code1) != DegreeLink(bucket, region, code2)
  {
    var link1, link2 := DegreeLink(bucket, region, code1), DegreeLink(bucket, region, code2);
    if link1 == link2 {
      assert link1[|link1| - CodeLength..] == code1;
      assert link2[|link2| - CodeLength..] == code2;
    }
  }

  /** `finishCourse`, without the drawing of the certificate: the template
      download comes first and its failure ends the call (status 500, type
      3) before the payload is even checked; then the schema; then the
      upload of the document under `randomCode` (a failed upload throws,
      type 1); finally the registration with `registerData.id`, if there is
      one, gets the link, the conclusion date and the exam result. */
  method FinishCourse(db: Db, templateFetched: bool, finishData: Option<FinishData>,
                      bucket: string, region: string, randomCode: string, uploaded: bool)
    returns (res: Response)
    requires db.Valid()
    requires |randomCode| == CodeLength
    modifies db`registrations
    ensures db.Valid()
    ensures !templateFetched ==> res == Response(500, Business) && db.registrations == old(db.registrations)
    ensures templateFetched && !ValidFinish(finishData) ==>
      res == Rejected(Validation) && db.registrations == old(db.registrations)
    ensures templateFetched && ValidFinish(finishData) && !uploaded ==>
      res == Crashed && db.registrations == old(db.registrations)
    ensures templateFetched && ValidFinish(finishData) && uploaded ==>
      var r := finishData.value.registerData.value;
      var id := r.id.str;
      && res == Done
      && db.registrations.Keys == old(db.registrations).Keys
      && (forall k :: k in old(db.registrations) && k != id ==> db.registrations[k] == old(db.registrations)[k])
      && (id in old(db.registrations) ==>
            db.registrations[id] == old(db.registrations)[id].(
              degreeLink := Some(DegreeLink(bucket, region, randomCode)),
              conclusionDate := Some(r.conclusionDate.str),
              examResult := Some(r.examResult.num)))
  {
    if !templateFetched {
      return Response(500, Business);
    }
    if !ValidFinish(finishData) {
      return Rejected(Validation);
    }
    if !uploaded {
      return Crashed;
    }
    var registerData := finishData.value.registerData.value;
    var link := DegreeLink(bucket, region, randomCode);
    var conclusionDate := Some(registerData.conclusionDate.str);
    var examResult := Some(registerData.examResult.num);
    db.registrations := UpdateById(db.registrations, registerData.id.str,
      (r: Registration) => r.(degreeLink := Some(link), conclusionDate := conclusionDate, examResult := examResult));
    res := Done;
  }

  /** `delete`: the query's `id` must be a non-empty string; the
      registration with it is destroyed, and the database's ON DELETE
      CASCADE removes its progress rows with it. */
  method Delete(db: Db, id: Json) returns (res: Response)
    requires db.Valid()
    modifies db`registrations, db`progress
    ensures db.Valid()
    ensures !(id.JString? && id.str != "") ==> res == Rejected(Validation) && unchanged(db)
    ensures id.JString? && id.str != "" ==>
      && res == Done
      && db.registrations == old(db.registrations) - {id.str}
      && db.progress.Keys == set k | k in old(db.progress) && old(db.progress)[k].registrationId != id.str
      && (forall k :: k in db.progress ==> k in old(db.progress) && db.progress[k] == old(db.progress)[k])
  {
    if !(id.JString? && id.str != "") {
      return Rejected(Validation);
    }
    var gone := id.str;
    db.registrations := db.registrations - {gone};
    db.progress := map k | k in db.progress && db.progress[k].registrationId != gone :: db.progress[k];
    res := Done;
  }
}
