/** The relational store the controllers work on, as tables from id to
    record (the model and migration files under src/), with the foreign keys
    the migrations declare. */
module Store {
  import opened Api

  /** Primary keys are uuids, kept as strings. */
  type Id = string

  datatype Course = Course(name: string)
  datatype Lesson = Lesson(courseId: Id, name: string)
  datatype Ticket = Ticket(code: string, used: bool)
  datatype Student = Student(name: string, email: string, password: string, phone: string,
                             image: Option<string>, refreshToken: Option<string>)
  datatype Registration = Registration(
    studentId: Id, courseId: Id, registerDate: string, supportDate: string,
    ticketId: Option<Id>, conclusionDate: Option<string>, examResult: Option<real>,
    degreeLink: Option<string>)
  datatype LessonProgress = LessonProgress(registrationId: Id, lessonId: Id, watchedAt: Option<string>)
  datatype Collaborator = Collaborator(name: string, code: real)

  /** `Model.update(values, { where: { id } })`: the row with that id, if
      there is one, is rewritten by `f`; every other row stays as it was. */
  function UpdateById<T>(table: map<Id, T>, id: Id, f: T -> T): (r: map<Id, T>)
    ensures r.Keys == table.Keys
    ensures forall k :: k in table && k != id ==> r[k] == table[k]
    ensures id in table ==> r[id] == f(table[id])
  {
    if id in table then table[id := f(table[id])] else table
  }

  class Db {
    var courses: map<Id, Course>
    var lessons: map<Id, Lesson>
    var tickets: map<Id, Ticket>
    var students: map<Id, Student>
    var registrations: map<Id, Registration>
    var progress: map<Id, LessonProgress>
    var collaborators: map<Id, Collaborator>

    /** The constraints the database enforces: foreign keys from lessons to
        courses, from registrations to students and courses, from progress
        rows to registrations and lessons; ticket codes are unique. */
    ghost predicate Valid()
      reads this
    {
      && (forall l :: l in lessons ==> lessons[l].courseId in courses)
      && (forall r :: r in registrations ==>
            registrations[r].studentId in students && registrations[r].courseId in courses)
      && (forall p :: p in progress ==>
            progress[p].registrationId in registrations && progress[p].lessonId in lessons)
      && (forall t1, t2 :: t1 in tickets && t2 in tickets && tickets[t1].code == tickets[t2].code ==> t1 == t2)
    }

    /** Every primary key in use, in any table. */
    function AllIds(): set<Id>
      reads this
    {
      courses.Keys + lessons.Keys + tickets.Keys + students.Keys
      + registrations.Keys + progress.Keys + collaborators.Keys
    }

    constructor ()
      ensures Valid()
      ensures courses == map[] && lessons == map[] && tickets == map[] && students == map[]
      ensures registrations == map[] && progress == map[] && collaborators == map[]
    {
      courses, lessons, tickets, students := map[], map[], map[], map[];
      registrations, progress, collaborators := map[], map[], map[];
    }

    /** `uuidv4()`, as the models' `beforeCreate` hooks call it: an id that
        no row of any table has. Which one is left open. */
    method NewUuid() returns (id: Id)
      ensures id !in courses && id !in lessons && id !in tickets && id !in students
      ensures id !in registrations && id !in progress && id !in collaborators
    {
      FreshIdExists(AllIds());
      id :| id !in AllIds();
    }
  }

  /** No element of `s` occurs twice. */
  predicate Distinct<T(==)>(s: seq<T>) {
    forall i, j :: 0 <= i < j < |s| ==> s[i] != s[j]
  }

  /** A sequence without repetitions has as many distinct elements as
      positions. */
  lemma {:induction false} DistinctCard<T>(s: seq<T>)
    requires Distinct(s)
    ensures |(set x | x in s)| == |s|
  {
    if s != [] {
      var init := s[..|s| - 1];
      assert Distinct(init);
      DistinctCard(init);
      assert (set x | x in s) == (set x | x in init) + {s[|s| - 1]};
      assert s[|s| - 1] !in init;
    }
  }

  /** However many ids are in use, there is one that is not: any string
      longer than all of them. */
  lemma FreshIdExists(used: set<Id>)
    ensures exists id :: id !in used
  {
    var n := LengthBound(used);
    var longer := seq(n, _ => 'u');
    assert |longer| == n;
    assert longer !in used;
  }

  /** A length that every id in `used` falls short of. */
  lemma {:induction false} LengthBound(used: set<Id>) returns (n: nat)
    ensures forall id :: id in used ==> |id| < n
    decreases |used|
  {
    if used == {} {
      n := 0;
    } else {
      var id :| id in used;
      var m := LengthBound(used - {id});
      n := if |id| + 1 > m then |id| + 1 else m;
    }
  }
}
