/**
 EnrollmentController::enrollWithPin: a student joins a course by its
 six-character PIN code.
 */
module EnrollmentController {
  import opened Common
  import opened Models

  /** Length every PIN code has (the size:6 rule, and Str::random(6)). */
  const PinLength: nat := 6

  const PinNotFound: string := "Course with this PIN not found."
  const OnlyStudents: string := "Only students can enroll in courses."

  /** Position of the first course carrying exactly this PIN, in storage
      order (Course::where('pin_code', ...)->first()). */
  function FirstWithPin(courses: seq<Course>, pin: string): (r: Option<nat>)
    ensures r.Some? ==> r.value < |courses| && courses[r.value].pin == pin
    ensures r.Some? ==> forall j :: 0 <= j < r.value ==> courses[j].pin != pin
    ensures r.None? <==> forall j :: 0 <= j < |courses| ==> courses[j].pin != pin
  {
    if |courses| == 0 then None
    else if courses[0].pin == pin then Some(0)
    else
      match FirstWithPin(courses[1..], pin)
      case None => None
      case Some(k) => Some(k + 1)
  }

  /** The pin_code rules: required (not blank) and exactly six characters. */
  predicate ValidPin(pin: string) {
    Required(pin) && |pin| == PinLength
  }

  /** What a successful enrolment answers: the course and the new state. */
  datatype Enrolment = Enrolment(course: Course, db: Db)

  /** enrollWithPin: validate the PIN (422), look the upper-cased PIN up
      (404 when absent), refuse non-students (403), then add the
      (course, caller) pair to the membership pivot if it is not there. */
  function EnrollWithPin(db: Db, caller: User, pinInput: string): (r: Reply<Enrolment>)
    ensures !ValidPin(pinInput) ==> r.Fail? && r.status == Unprocessable
    ensures ValidPin(pinInput) && FirstWithPin(db.courses, Upper(pinInput)).None? ==>
      r == Fail(NotFound, PinNotFound)
    ensures ValidPin(pinInput) && FirstWithPin(db.courses, Upper(pinInput)).Some? && !IsStudent(caller) ==>
      r == Fail(Forbidden, OnlyStudents)
    ensures r.Ok? <==>
      ValidPin(pinInput) && FirstWithPin(db.courses, Upper(pinInput)).Some? && IsStudent(caller)
    ensures r.Ok? ==>
      && r.value.course.pin == Upper(pinInput)
      && r.value.course == db.courses[FirstWithPin(db.courses, Upper(pinInput)).value]
      && r.value.db.members == db.members + {(r.value.course.id, caller.id)}
      && r.value.db == db.(members := r.value.db.members)
  {
    if !ValidPin(pinInput) then Fail(Unprocessable, "pin_code")
    else
      match FirstWithPin(db.courses, Upper(pinInput))
      case None => Fail(NotFound, PinNotFound)
      case Some(i) =>
        var course := db.courses[i];
        if !IsStudent(caller) then Fail(Forbidden, OnlyStudents)
        else Ok(Enrolment(course, db.(members := db.members + {(course.id, caller.id)})))
  }

  /** A PIN of six blanks fails the required rule: it is a 422 for every
      caller, before any lookup. */
  lemma BlankPinIsUnprocessable(db: Db, caller: User)
    ensures EnrollWithPin(db, caller, "      ") == Fail(Unprocessable, "pin_code")
  {
  }

  /** The PIN check comes before the role check: a professor with an
      unknown PIN is told 404, not 403. */
  lemma UnknownPinBeatsRole(db: Db, caller: User, pinInput: string)
    requires ValidPin(pinInput)
    requires forall c :: c in db.courses ==> c.pin != Upper(pinInput)
    ensures EnrollWithPin(db, caller, pinInput) == Fail(NotFound, PinNotFound)
  {
    assert forall j :: 0 <= j < |db.courses| ==> db.courses[j] in db.courses;
  }

  /** Letter case of the typed PIN does not matter: every case variant of a
      course's upper-case PIN enrols into the first course carrying it. */
  lemma {:induction false} PinIsCaseInsensitive(db: Db, caller: User, i: nat, typed: string)
    requires i < |db.courses| && ValidPin(db.courses[i].pin) && IsUpperCase(db.courses[i].pin)
    requires forall j :: 0 <= j < i ==> db.courses[j].pin != db.courses[i].pin
    requires CaseVariantOf(typed, db.courses[i].pin)
    requires IsStudent(caller)
    ensures EnrollWithPin(db, caller, typed).Ok?
    ensures EnrollWithPin(db, caller, typed).value.course == db.courses[i]
  {
    CaseVariantUppers(typed, db.courses[i].pin);
    UpperKeepsRequired(typed);
    var found := FirstWithPin(db.courses, Upper(typed));
    assert found.Some? by {
      assert db.courses[i].pin == Upper(typed);
    }
  }

  /** Enrolling is idempotent: a second identical request leaves the state
      the first one produced. */
  lemma EnrollIsIdempotent(db: Db, caller: User, pinInput: string)
    requires EnrollWithPin(db, caller, pinInput).Ok?
    ensures
      var once := EnrollWithPin(db, caller, pinInput).value.db;
      EnrollWithPin(once, caller, pinInput) == Ok(Enrolment(EnrollWithPin(db, caller, pinInput).value.course, once))
  {
  }

  /** Only the (course, caller) pair is new; no membership is lost. */
  lemma EnrollAddsOnlyCallerPair(db: Db, caller: User, pinInput: string, m: Membership)
    requires EnrollWithPin(db, caller, pinInput).Ok?
    requires m != (EnrollWithPin(db, caller, pinInput).value.course.id, caller.id)
    ensures m in EnrollWithPin(db, caller, pinInput).value.db.members <==> m in db.members
  {
  }

  /** Seen through the User::courses relation, enrolling by PIN adds exactly
      the found course to the caller's courses and changes no other user's
      courses. */
  lemma EnrollJoinsOnlyThatCourse(db: Db, caller: User, pinInput: string, other: User)
    requires EnrollWithPin(db, caller, pinInput).Ok?
    ensures
      var e := EnrollWithPin(db, caller, pinInput).value;
      JoinedCourseIds(e.db, caller) == JoinedCourseIds(db, caller) + {e.course.id}
    ensures
      var e := EnrollWithPin(db, caller, pinInput).value;
      other.id != caller.id ==> JoinedCourseIds(e.db, other) == JoinedCourseIds(db, other)
  {
    var e := EnrollWithPin(db, caller, pinInput).value;
    assert e.course in db.courses;
  }

  /** Enrolling keeps the allocation invariant: the new pivot row names an
      existing course. */
  lemma EnrollKeepsAllocated(db: Db, caller: User, pinInput: string)
    requires Allocated(db)
    requires EnrollWithPin(db, caller, pinInput).Ok?
    ensures Allocated(EnrollWithPin(db, caller, pinInput).value.db)
  {
    assert EnrollWithPin(db, caller, pinInput).value.course in db.courses;
  }
}
