/**
 CourseController: course creation, PIN rotation, course listings, the
 editing actions, and the membership actions a professor performs on a
 course's students.

 update, destroy, listStudents, enrollStudent and removeStudent call
 Gate::denies and throw the answer away, so they enforce no ownership:
 the model's versions take the caller but never consult it.
 */
module CourseController {
  import opened Common
  import opened Models
  import CoursePolicy
  import EnrollmentController
  import NewsController

  const NotAuthorizedToCreate: string := "You are not authorized to create a course."
  const OnlyStudentRole: string := "Only users with the role \"student\" can be enrolled."
  const NotAProfessor: string := "Unauthorized"

  /** The courses with the given id rewritten by `edit`, all others kept
      (an UPDATE ... WHERE id = courseId). */
  function EditCourse(courses: seq<Course>, courseId: CourseId, edit: Course -> Course): (r: seq<Course>)
    ensures |r| == |courses|
    ensures forall i :: 0 <= i < |courses| && courses[i].id != courseId ==> r[i] == courses[i]
    ensures forall i :: 0 <= i < |courses| && courses[i].id == courseId ==> r[i] == edit(courses[i])
  {
    seq(|courses|, i requires 0 <= i < |courses| =>
      if courses[i].id == courseId then edit(courses[i]) else courses[i])
  }

  /** A PIN as the controller generates it: Str::upper of Str::random(6).
      The random string is a parameter (six characters, as Str::random(6)
      always gives). */
  function GeneratePin(random: string): (pin: string)
    requires |random| == EnrollmentController.PinLength
    ensures |pin| == EnrollmentController.PinLength && IsUpperCase(pin)
  {
    UpperIsUpperCase(random);
    Upper(random)
  }

  /** changePin: 404 for an unknown course, 403 unless the caller may
      update it, otherwise a fresh upper-case six-character PIN. */
  function ChangePin(db: Db, caller: User, courseId: CourseId, random: string): (r: Reply<Db>)
    requires |random| == EnrollmentController.PinLength
    ensures FindCourse(db.courses, courseId).None? ==> r == Fail(NotFound, NoQueryResults)
    ensures FindCourse(db.courses, courseId).Some? && !CoursePolicy.Update(caller, FindCourse(db.courses, courseId).value) ==>
      r == Fail(Forbidden, ThisActionIsUnauthorized)
    ensures r.Ok? <==>
      FindCourse(db.courses, courseId).Some? && CoursePolicy.Update(caller, FindCourse(db.courses, courseId).value)
    ensures r.Ok? ==> r.value == db.(courses := r.value.courses) && |r.value.courses| == |db.courses|
    ensures r.Ok? ==> forall i :: 0 <= i < |db.courses| ==>
      if db.courses[i].id == courseId
      then r.value.courses[i] == db.courses[i].(pin := Upper(random))
           && |r.value.courses[i].pin| == EnrollmentController.PinLength
           && IsUpperCase(r.value.courses[i].pin)
      else r.value.courses[i] == db.courses[i]
  {
    match FindCourse(db.courses, courseId)
    case None => Fail(NotFound, NoQueryResults)
    case Some(course) =>
      if !CoursePolicy.Update(caller, course) then Fail(Forbidden, ThisActionIsUnauthorized)
      else
        var pin := GeneratePin(random);
        Ok(db.(courses := EditCourse(db.courses, courseId, (c: Course) => c.(pin := pin))))
  }

  /** The checks store makes before it writes: the create ability (403),
      then the title and description rules (422). */
  function StoreChecks(caller: User, title: string, description: string): (r: Option<(nat, string)>)
    ensures r.None? <==>
      CoursePolicy.Create(caller) && Required(title) && |title| <= MaxStringLength && Required(description)
    ensures !CoursePolicy.Create(caller) ==> r == Some((Forbidden, NotAuthorizedToCreate))
    ensures CoursePolicy.Create(caller) && r.Some? ==> r.value.0 == Unprocessable
  {
    if !CoursePolicy.Create(caller) then Some((Forbidden, NotAuthorizedToCreate))
    else if !Required(title) || |title| > MaxStringLength then Some((Unprocessable, "title"))
    else if !Required(description) then Some((Unprocessable, "description"))
    else None
  }

  /** store, as written: the course is created through the caller's
      `courses` relation, which is the course_user membership pivot. The
      new course's user_id is left null and the creator becomes a member of
      it instead of its owner. */
  function StoreAsWritten(db: Db, caller: User, title: string, description: string, random: string)
    : (r: Reply<(Course, Db)>)
    requires |random| == EnrollmentController.PinLength
    ensures r.Fail? <==> StoreChecks(caller, title, description).Some?
    ensures !CoursePolicy.Create(caller) ==> r == Fail(Forbidden, NotAuthorizedToCreate)
    ensures r.Fail? && CoursePolicy.Create(caller) ==> r.status == Unprocessable
    ensures r.Ok? ==>
      var (c, after) := r.value;
      && c.ownerId.None?
      && c.title == title && c.description == description
      && |c.pin| == EnrollmentController.PinLength && IsUpperCase(c.pin)
      && c.id == db.nextCourseId
      && after == db.(courses := db.courses + [c], members := db.members + {(c.id, caller.id)},
                      nextCourseId := c.id + 1)
  {
    match StoreChecks(caller, title, description)
    case Some((status, message)) => Fail(status, message)
    case None =>
      var c := Course(db.nextCourseId, title, description, None, GeneratePin(random));
      Ok((c, db.(courses := db.courses + [c], members := db.members + {(c.id, caller.id)},
                 nextCourseId := db.nextCourseId + 1)))
  }

  /** The discrepancy: the professor who created a course through store as
      written does not teach it, may not update it (so cannot change its
      PIN), and instead appears among its joined members. */
  lemma StoreAsWrittenLosesOwnership(db: Db, caller: User, title: string, description: string, random: string)
    requires |random| == EnrollmentController.PinLength
    requires Allocated(db)
    requires StoreAsWritten(db, caller, title, description, random).Ok?
    ensures
      var (c, after) := StoreAsWritten(db, caller, title, description, random).value;
      && c.id !in TaughtCourseIds(after, caller)
      && !CoursePolicy.Update(caller, c)
      && c.id in JoinedCourseIds(after, caller)
      && IsProfessor(caller)
  {
    var (c, after) := StoreAsWritten(db, caller, title, description, random).value;
    assert c in after.courses;
  }

  /** The as-written store succeeds for every professor sending a valid
      title and description: the discrepancy is reached on every create. */
  lemma StoreAsWrittenAlwaysReached(db: Db, caller: User, title: string, description: string, random: string)
    requires |random| == EnrollmentController.PinLength
    requires IsProfessor(caller)
    requires Required(title) && |title| <= MaxStringLength && Required(description)
    ensures StoreAsWritten(db, caller, title, description, random).Ok?
  {
  }

  /** store, corrected: the new course is owned by the creating professor
      (its user_id is the caller's id) and the membership pivot is left
      alone. This is the store the rest of the model uses. */
  function Store(db: Db, caller: User, title: string, description: string, random: string)
    : (r: Reply<(Course, Db)>)
    requires |random| == EnrollmentController.PinLength
    ensures !CoursePolicy.Create(caller) ==> r == Fail(Forbidden, NotAuthorizedToCreate)
    ensures r.Fail? <==> StoreChecks(caller, title, description).Some?
    ensures r.Fail? && CoursePolicy.Create(caller) ==> r.status == Unprocessable
    ensures r.Ok? ==>
      var (c, after) := r.value;
      && c.title == title && c.description == description && c.ownerId == Some(caller.id)
      && |c.pin| == EnrollmentController.PinLength && IsUpperCase(c.pin)
      && c.id == db.nextCourseId
      && after == db.(courses := db.courses + [c], nextCourseId := c.id + 1)
    ensures r.Ok? && Allocated(db) ==>
      && (forall d :: d in db.courses ==> d.id != r.value.0.id)
      && Allocated(r.value.1)
  {
    match StoreChecks(caller, title, description)
    case Some((status, message)) => Fail(status, message)
    case None =>
      var c := Course(db.nextCourseId, title, description, Some(caller.id), GeneratePin(random));
      Ok((c, db.(courses := db.courses + [c], nextCourseId := db.nextCourseId + 1)))
  }

  /** The creator of a course owns it: it is among the courses they teach,
      they may update it, and changing its PIN succeeds. */
  lemma StoreMakesCreatorOwner(db: Db, caller: User, title: string, description: string, random: string, random2: string)
    requires |random| == EnrollmentController.PinLength && |random2| == EnrollmentController.PinLength
    requires Allocated(db)
    requires Store(db, caller, title, description, random).Ok?
    ensures
      var (c, after) := Store(db, caller, title, description, random).value;
      && c.id in TaughtCourseIds(after, caller)
      && CoursePolicy.Update(caller, c)
      && c in IndexForUser(after, caller)
      && ChangePin(after, caller, c.id, random2).Ok?
  {
    var (c, after) := Store(db, caller, title, description, random).value;
    assert c in after.courses;
    assert FindCourse(after.courses, c.id) == Some(c) by {
      FindByAppended(db.courses, (d: Course) => d.id, c);
    }
  }

  /** A stored course starts empty: because ids are never reused, no pivot
      row and no news post left behind by a deleted course can name it. */
  lemma StoredCourseStartsEmpty(db: Db, caller: User, title: string, description: string, random: string,
                                u: User)
    requires |random| == EnrollmentController.PinLength
    requires Allocated(db)
    requires Store(db, caller, title, description, random).Ok?
    ensures
      var (c, after) := Store(db, caller, title, description, random).value;
      && MemberIds(after, c.id) == {}
      && c.id !in JoinedCourseIds(after, u)
      && forall n :: n in after.news ==> n.courseId != c.id
  {
    var (c, after) := Store(db, caller, title, description, random).value;
    assert forall m :: m in after.members ==> m.0 != c.id;
  }

  /** One course of a professor with the ids of everyone joined to it. */
  datatype Roster = Roster(course: Course, students: set<UserId>)

  function Rosters(db: Db, courses: seq<Course>): (r: seq<Roster>)
    ensures |r| == |courses|
    ensures forall i :: 0 <= i < |courses| ==> r[i] == Roster(courses[i], MemberIds(db, courses[i].id))
  {
    seq(|courses|, i requires 0 <= i < |courses| => Roster(courses[i], MemberIds(db, courses[i].id)))
  }

  /** indexWithStudents: 403 for anyone but a professor; otherwise the
      professor's taught courses, each with every joined user. */
  function IndexWithStudents(db: Db, caller: User): (r: Reply<seq<Roster>>)
    ensures r.Fail? <==> !IsProfessor(caller)
    ensures r.Fail? ==> r == Fail(Forbidden, NotAProfessor)
    ensures r.Ok? ==> forall ro :: ro in r.value ==>
      ro.course in db.courses && Owns(caller, ro.course) && ro.students == MemberIds(db, ro.course.id)
    ensures r.Ok? ==> forall c :: c in db.courses && Owns(caller, c) ==>
      exists ro :: ro in r.value && ro.course == c
  {
    if !IsProfessor(caller) then Fail(Forbidden, NotAProfessor)
    else
      var taught := Filter(db.courses, (c: Course) => Owns(caller, c));
      var r := Rosters(db, taught);
      assert forall i :: 0 <= i < |taught| ==> taught[i] in taught;
      assert forall c :: c in taught ==> Roster(c, MemberIds(db, c.id)) in r by {
        forall c | c in taught ensures Roster(c, MemberIds(db, c.id)) in r {
          var i :| 0 <= i < |taught| && taught[i] == c;
          assert r[i] == Roster(c, MemberIds(db, c.id));
        }
      }
      Ok(r)
  }

  /** indexForUser: professors see the courses they teach, everybody else
      the courses they joined. */
  function IndexForUser(db: Db, caller: User): (r: seq<Course>)
    ensures forall c :: c in r ==> c in db.courses
    ensures IsProfessor(caller) ==> forall c :: c in db.courses ==> (c in r <==> Owns(caller, c))
    ensures !IsProfessor(caller) ==> forall c :: c in db.courses ==> (c in r <==> c.id in JoinedCourseIds(db, caller))
  {
    if IsProfessor(caller) then Filter(db.courses, (c: Course) => Owns(caller, c))
    else Filter(db.courses, (c: Course) => (c.id, caller.id) in db.members)
  }

  /** After a student enrols by PIN, the course appears in their list. */
  lemma EnrolledCourseIsListed(db: Db, caller: User, pinInput: string)
    requires EnrollmentController.EnrollWithPin(db, caller, pinInput).Ok?
    ensures
      var e := EnrollmentController.EnrollWithPin(db, caller, pinInput).value;
      e.course in IndexForUser(e.db, caller)
  {
    var e := EnrollmentController.EnrollWithPin(db, caller, pinInput).value;
    assert e.course in e.db.courses;
  }

  /** The title and description rules of update ('sometimes|required'):
      a field that is sent must hold a character trim keeps, and a title
      at most 255 characters. */
  predicate ValidEdit(title: Option<string>, description: Option<string>) {
    && (title.Some? ==> Required(title.value) && |title.value| <= MaxStringLength)
    && (description.Some? ==> Required(description.value))
  }

  /** update: 404 for an unknown course, 422 for an invalid field, otherwise
      the sent fields are written. The caller is never checked. */
  function Update(db: Db, caller: User, courseId: CourseId, title: Option<string>, description: Option<string>)
    : (r: Reply<Db>)
    ensures FindCourse(db.courses, courseId).None? ==> r == Fail(NotFound, NoQueryResults)
    ensures FindCourse(db.courses, courseId).Some? ==> (r.Ok? <==> ValidEdit(title, description))
    ensures FindCourse(db.courses, courseId).Some? && !ValidEdit(title, description) ==>
      r.Fail? && r.status == Unprocessable
    ensures r.Ok? ==> r.value == db.(courses := r.value.courses) && |r.value.courses| == |db.courses|
    ensures r.Ok? ==> forall i :: 0 <= i < |db.courses| ==>
      var (before, after) := (db.courses[i], r.value.courses[i]);
      if before.id != courseId then after == before
      else && after.title == (if title.Some? then title.value else before.title)
           && after.description == (if description.Some? then description.value else before.description)
           && after.ownerId == before.ownerId && after.pin == before.pin && after.id == before.id
  {
    match FindCourse(db.courses, courseId)
    case None => Fail(NotFound, NoQueryResults)
    case Some(_) =>
      if !ValidEdit(title, description) then Fail(Unprocessable, if title.Some? && !(Required(title.value) && |title.value| <= MaxStringLength) then "title" else "description")
      else
        Ok(db.(courses := EditCourse(db.courses, courseId, (c: Course) =>
          c.(title := if title.Some? then title.value else c.title,
             description := if description.Some? then description.value else c.description))))
  }

  /** destroy: 404 for an unknown course, otherwise the course row is
      deleted. The caller is never checked. */
  function Destroy(db: Db, caller: User, courseId: CourseId): (r: Reply<Db>)
    ensures FindCourse(db.courses, courseId).None? <==> r.Fail?
    ensures r.Fail? ==> r == Fail(NotFound, NoQueryResults)
    ensures r.Ok? ==> r.value == db.(courses := r.value.courses)
    ensures r.Ok? ==> forall c :: c in r.value.courses <==> c in db.courses && c.id != courseId
  {
    match FindCourse(db.courses, courseId)
    case None => Fail(NotFound, NoQueryResults)
    case Some(_) => Ok(db.(courses := Filter(db.courses, (c: Course) => c.id != courseId)))
  }

  /** listStudents: the joined users whose role is student. */
  function ListStudents(db: Db, caller: User, courseId: CourseId): (r: Reply<seq<User>>)
    ensures FindCourse(db.courses, courseId).None? <==> r.Fail?
    ensures r.Fail? ==> r == Fail(NotFound, NoQueryResults)
    ensures r.Ok? ==> forall u :: u in r.value <==> u in db.users && u.id in MemberIds(db, courseId) && IsStudent(u)
  {
    match FindCourse(db.courses, courseId)
    case None => Fail(NotFound, NoQueryResults)
    case Some(_) => Ok(Filter(db.users, (u: User) => (courseId, u.id) in db.members && IsStudent(u)))
  }

  /** enrollStudent: the target must exist (422) and be a student (422);
      then the pair is added to the pivot if it is not already there. */
  function EnrollStudent(db: Db, caller: User, courseId: CourseId, studentId: Option<UserId>): (r: Reply<Db>)
    ensures FindCourse(db.courses, courseId).None? ==> r == Fail(NotFound, NoQueryResults)
    ensures FindCourse(db.courses, courseId).Some? && studentId.Some? && FindUser(db.users, studentId.value).Some?
            && !IsStudent(FindUser(db.users, studentId.value).value) ==>
      r == Fail(Unprocessable, OnlyStudentRole)
    ensures FindCourse(db.courses, courseId).Some? && (studentId.None? || FindUser(db.users, studentId.value).None?) ==>
      r == Fail(Unprocessable, "student_id")
    ensures r.Ok? <==>
      && FindCourse(db.courses, courseId).Some?
      && studentId.Some? && FindUser(db.users, studentId.value).Some?
      && IsStudent(FindUser(db.users, studentId.value).value)
    ensures r.Ok? ==> r.value == db.(members := db.members + {(courseId, studentId.value)})
  {
    match FindCourse(db.courses, courseId)
    case None => Fail(NotFound, NoQueryResults)
    case Some(_) =>
      if studentId.None? then Fail(Unprocessable, "student_id")
      else
        match FindUser(db.users, studentId.value)
        case None => Fail(Unprocessable, "student_id")
        case Some(student) =>
          if !IsStudent(student) then Fail(Unprocessable, OnlyStudentRole)
          else Ok(db.(members := db.members + {(courseId, student.id)}))
  }

  /** removeStudent: both the course and the user must exist (404); then
      exactly that one pair leaves the pivot. */
  function RemoveStudent(db: Db, caller: User, courseId: CourseId, studentId: UserId): (r: Reply<Db>)
    ensures r.Fail? <==> FindCourse(db.courses, courseId).None? || FindUser(db.users, studentId).None?
    ensures r.Fail? ==> r == Fail(NotFound, NoQueryResults)
    ensures r.Ok? ==> r.value == db.(members := r.value.members)
    ensures r.Ok? ==> (courseId, studentId) !in r.value.members
    ensures r.Ok? ==> forall m :: m != (courseId, studentId) ==> (m in r.value.members <==> m in db.members)
  {
    if FindCourse(db.courses, courseId).None? || FindUser(db.users, studentId).None? then
      Fail(NotFound, NoQueryResults)
    else
      Ok(db.(members := db.members - {(courseId, studentId)}))
  }

  /** Enrolling the same student twice leaves the state of the first. */
  lemma EnrollStudentIsIdempotent(db: Db, caller: User, courseId: CourseId, studentId: UserId)
    requires EnrollStudent(db, caller, courseId, Some(studentId)).Ok?
    ensures
      var once := EnrollStudent(db, caller, courseId, Some(studentId)).value;
      EnrollStudent(once, caller, courseId, Some(studentId)) == Ok(once)
  {
  }

  /** Removing a student just enrolled into a course they had not joined
      restores the membership exactly. */
  lemma EnrollThenRemoveRestores(db: Db, caller: User, courseId: CourseId, studentId: UserId)
    requires EnrollStudent(db, caller, courseId, Some(studentId)).Ok?
    requires (courseId, studentId) !in db.members
    ensures
      var once := EnrollStudent(db, caller, courseId, Some(studentId)).value;
      RemoveStudent(once, caller, courseId, studentId) == Ok(db)
  {
    var once := EnrollStudent(db, caller, courseId, Some(studentId)).value;
    assert once.members - {(courseId, studentId)} == db.members;
  }

  /** The discarded Gate::denies results: update, destroy, listStudents,
      enrollStudent and removeStudent answer a caller who fails the
      matching policy ability exactly as they answer the course owner. */
  lemma DiscardedGatesEnforceNothing(db: Db, stranger: User, owner: User, courseId: CourseId,
                                     title: Option<string>, description: Option<string>,
                                     studentId: UserId)
    requires FindCourse(db.courses, courseId).Some?
    requires Owns(owner, FindCourse(db.courses, courseId).value)
    ensures stranger.id != owner.id ==> !CoursePolicy.Update(stranger, FindCourse(db.courses, courseId).value)
    ensures Update(db, stranger, courseId, title, description) == Update(db, owner, courseId, title, description)
    ensures Destroy(db, stranger, courseId) == Destroy(db, owner, courseId)
    ensures ListStudents(db, stranger, courseId) == ListStudents(db, owner, courseId)
    ensures EnrollStudent(db, stranger, courseId, Some(studentId)) == EnrollStudent(db, owner, courseId, Some(studentId))
    ensures RemoveStudent(db, stranger, courseId, studentId) == RemoveStudent(db, owner, courseId, studentId)
  {
  }

  /** Concretely: a student who does not own a course can still rename it. */
  lemma NonOwnerCanUpdate()
    ensures
      var course := Course(7, "Old", "d", Some(1), "ABC123");
      var stranger := User(2, "S", "s@example.com", "h", StudentRole, None);
      var db := Db([], [course], {}, [], {}, {}, 8, 1);
      && !CoursePolicy.Update(stranger, course)
      && Update(db, stranger, 7, Some("New"), None).Ok?
      && Update(db, stranger, 7, Some("New"), None).value.courses[0].title == "New"
  {
    assert Required("New") by {
      assert !IsTrimmable("New"[0]);
    }
  }

  /** The partner of changePin: after the change, a student typing the new
      PIN in any letter case joins the changed course (the random string
      comes from Str::random, so it is not blank), provided no earlier
      course carries the same PIN; the change itself touches no
      membership. */
  lemma EnrollByNewPin(db: Db, caller: User, courseId: CourseId, random: string, i: nat,
                       student: User, typed: string)
    requires |random| == EnrollmentController.PinLength && Required(random)
    requires ChangePin(db, caller, courseId, random).Ok?
    requires i < |db.courses| && db.courses[i].id == courseId
    requires forall j :: 0 <= j < i ==>
      ChangePin(db, caller, courseId, random).value.courses[j].pin != Upper(random)
    requires CaseVariantOf(typed, Upper(random))
    requires IsStudent(student)
    ensures
      var after := ChangePin(db, caller, courseId, random).value;
      && after.members == db.members
      && EnrollmentController.EnrollWithPin(after, student, typed).Ok?
      && EnrollmentController.EnrollWithPin(after, student, typed).value.course == after.courses[i]
  {
    var after := ChangePin(db, caller, courseId, random).value;
    assert after.courses[i].pin == Upper(random);
    UpperKeepsRequired(random);
    EnrollmentController.PinIsCaseInsensitive(after, student, i, typed);
  }

  /** After a PIN change no other PIN reaches the changed course: the first
      course carrying any different PIN has another id. */
  lemma ChangePinRetiresOldPin(db: Db, caller: User, courseId: CourseId, random: string, oldPin: string)
    requires |random| == EnrollmentController.PinLength
    requires ChangePin(db, caller, courseId, random).Ok?
    requires oldPin != Upper(random)
    ensures
      var after := ChangePin(db, caller, courseId, random).value;
      var found := EnrollmentController.FirstWithPin(after.courses, oldPin);
      found.Some? ==> after.courses[found.value].id != courseId
  {
  }

  /** The corrected store adds exactly the new course to the courses the
      creator teaches, and to nobody else's. */
  lemma StoreTeachesOnlyNewCourse(db: Db, caller: User, title: string, description: string, random: string,
                                  other: User)
    requires |random| == EnrollmentController.PinLength
    requires Store(db, caller, title, description, random).Ok?
    ensures
      var (c, after) := Store(db, caller, title, description, random).value;
      TaughtCourseIds(after, caller) == TaughtCourseIds(db, caller) + {c.id}
    ensures
      var (c, after) := Store(db, caller, title, description, random).value;
      other.id != caller.id ==> TaughtCourseIds(after, other) == TaughtCourseIds(db, other)
  {
    var (c, after) := Store(db, caller, title, description, random).value;
    assert c in after.courses;
  }

  /** removeStudent takes exactly that course out of the student's courses
      and leaves every other user's courses alone. */
  lemma RemoveLeavesOnlyThatCourse(db: Db, caller: User, courseId: CourseId, student: User, other: User)
    requires RemoveStudent(db, caller, courseId, student.id).Ok?
    ensures
      var after := RemoveStudent(db, caller, courseId, student.id).value;
      JoinedCourseIds(after, student) == JoinedCourseIds(db, student) - {courseId}
    ensures
      var after := RemoveStudent(db, caller, courseId, student.id).value;
      other.id != student.id ==> JoinedCourseIds(after, other) == JoinedCourseIds(db, other)
  {
  }

  /** listStudents reflects the membership actions: an enrolled student is
      listed, and after removal is no longer listed. */
  lemma ListReflectsEnrollAndRemove(db: Db, caller: User, courseId: CourseId, studentId: UserId)
    requires EnrollStudent(db, caller, courseId, Some(studentId)).Ok?
    ensures
      var student := FindUser(db.users, studentId).value;
      var enrolled := EnrollStudent(db, caller, courseId, Some(studentId)).value;
      && ListStudents(enrolled, caller, courseId).Ok?
      && student in ListStudents(enrolled, caller, courseId).value
      && RemoveStudent(enrolled, caller, courseId, studentId).Ok?
      && var removed := RemoveStudent(enrolled, caller, courseId, studentId).value;
         && ListStudents(removed, caller, courseId).Ok?
         && student !in ListStudents(removed, caller, courseId).value
  {
    var student := FindUser(db.users, studentId).value;
    var enrolled := EnrollStudent(db, caller, courseId, Some(studentId)).value;
    assert student.id in MemberIds(enrolled, courseId);
  }

  /** The rosters of indexWithStudents list every joined user; restricted
      to students they are exactly what listStudents answers. */
  lemma RostersAgreeWithListStudents(db: Db, caller: User, ro: Roster)
    requires IndexWithStudents(db, caller).Ok?
    requires ro in IndexWithStudents(db, caller).value
    ensures ListStudents(db, caller, ro.course.id).Ok?
    ensures forall u :: u in ListStudents(db, caller, ro.course.id).value <==>
      u in db.users && u.id in ro.students && IsStudent(u)
  {
  }

  /** Once a course is destroyed, no feed shows a post of it: the relations
      join the courses table, and the course row is gone. */
  lemma DestroyHidesCourseNews(db: Db, caller: User, courseId: CourseId, viewer: User)
    requires Destroy(db, caller, courseId).Ok?
    ensures forall a :: a in NewsController.IndexForUser(Destroy(db, caller, courseId).value, viewer) ==>
      a.news.courseId != courseId
  {
  }

  /** Rewriting course rows without touching their ids keeps the
      allocation invariant. */
  lemma SameIdsKeepAllocated(db: Db, courses: seq<Course>)
    requires Allocated(db)
    requires |courses| == |db.courses|
    requires forall i :: 0 <= i < |courses| ==> courses[i].id == db.courses[i].id
    ensures Allocated(db.(courses := courses))
  {
    forall c | c in courses ensures c.id < db.nextCourseId {
      var i :| 0 <= i < |courses| && courses[i] == c;
      assert db.courses[i] in db.courses;
    }
  }

  /** The editing writes of this controller keep the allocation invariant. */
  lemma EditsKeepAllocated(db: Db, caller: User, courseId: CourseId, random: string,
                           newTitle: Option<string>, newDescription: Option<string>)
    requires |random| == EnrollmentController.PinLength
    requires Allocated(db)
    ensures ChangePin(db, caller, courseId, random).Ok? ==> Allocated(ChangePin(db, caller, courseId, random).value)
    ensures Update(db, caller, courseId, newTitle, newDescription).Ok? ==>
      Allocated(Update(db, caller, courseId, newTitle, newDescription).value)
  {
    var r := ChangePin(db, caller, courseId, random);
    if r.Ok? {
      SameIdsKeepAllocated(db, r.value.courses);
    }
    var u := Update(db, caller, courseId, newTitle, newDescription);
    if u.Ok? {
      SameIdsKeepAllocated(db, u.value.courses);
    }
  }

  /** The inserting and deleting writes of this controller keep the
      allocation invariant. */
  lemma RowWritesKeepAllocated(db: Db, caller: User, courseId: CourseId, random: string,
                               title: string, description: string, studentId: UserId)
    requires |random| == EnrollmentController.PinLength
    requires Allocated(db)
    ensures StoreAsWritten(db, caller, title, description, random).Ok? ==>
      Allocated(StoreAsWritten(db, caller, title, description, random).value.1)
    ensures Destroy(db, caller, courseId).Ok? ==> Allocated(Destroy(db, caller, courseId).value)
    ensures EnrollStudent(db, caller, courseId, Some(studentId)).Ok? ==>
      Allocated(EnrollStudent(db, caller, courseId, Some(studentId)).value)
    ensures RemoveStudent(db, caller, courseId, studentId).Ok? ==>
      Allocated(RemoveStudent(db, caller, courseId, studentId).value)
  {
  }

  /** Concretely: delete a course that a student had joined and whose news
      the student could read, then create a new course. The new course gets
      a new id, so the student has not joined it and their feed stays
      empty; ids of deleted courses are never handed out again. */
  lemma DeletedIdIsNotReused()
    ensures
      var p := User(1, "P", "p@example.com", "h", ProfessorRole, None);
      var s := User(2, "S", "s@example.com", "h", StudentRole, None);
      var db := Db([p, s], [Course(1, "A", "a", None, "AAAAAA"), Course(2, "B", "b", Some(1), "BBBBBB")],
                   {(2, 2)}, [News(10, "T", "c", 1, 2)], {}, {}, 3, 11);
      && Allocated(db)
      && Destroy(db, p, 2).Ok?
      && var created := Store(Destroy(db, p, 2).value, p, "New", "d", "abcdef");
         && created.Ok?
         && created.value.0.id == 3
         && JoinedCourseIds(created.value.1, s) == {}
         && NewsController.IndexForUser(created.value.1, s) == []
  {
    assert Required("New") by {
      assert !IsTrimmable("New"[0]);
    }
    assert Required("d") by {
      assert !IsTrimmable("d"[0]);
    }
  }
}
