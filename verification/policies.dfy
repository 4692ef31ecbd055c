/**
 The authorization policies: each ability is a boolean function of the
 acting user's role and of ownership, exactly as the policy classes decide
 it. Ownership compares the user's id with a user_id column; a null column
 equals no id.
 */
module CoursePolicy {
  import opened Common
  import opened Models

  predicate ViewAny(u: User) {
    true
  }

  predicate View(u: User, c: Course) {
    true
  }

  /** Only professors may create courses. */
  predicate Create(u: User) {
    IsProfessor(u)
  }

  predicate Update(u: User, c: Course) {
    Owns(u, c)
  }

  predicate Delete(u: User, c: Course) {
    Owns(u, c)
  }

  predicate ViewEnrolledStudents(u: User, c: Course) {
    Owns(u, c)
  }

  predicate EnrollStudent(u: User, c: Course) {
    Owns(u, c)
  }

  predicate RemoveStudent(u: User, c: Course) {
    Owns(u, c)
  }

  /** Everybody may list and view courses; creating one depends on the
      role alone. */
  lemma OpenAbilities(u: User, c: Course)
    ensures ViewAny(u) && View(u, c)
    ensures Create(u) <==> u.role == ProfessorRole
  {
  }

  /** The five owner-only abilities all coincide with the user_id test, and
      none looks at the role: a student recorded as owner passes them, a
      professor who does not own the course fails them. */
  lemma OwnerAbilities(u: User, c: Course, role: string)
    ensures Update(u, c) <==> c.ownerId == Some(u.id)
    ensures Delete(u, c) == Update(u, c) && ViewEnrolledStudents(u, c) == Update(u, c)
    ensures EnrollStudent(u, c) == Update(u, c) && RemoveStudent(u, c) == Update(u, c)
    ensures Update(u.(role := role), c) == Update(u, c)
  {
  }

  /** A course whose user_id is null can be changed by nobody. */
  lemma OwnerlessCourseIsLocked(u: User, c: Course)
    requires c.ownerId.None?
    ensures !Update(u, c) && !Delete(u, c) && !ViewEnrolledStudents(u, c)
    ensures !EnrollStudent(u, c) && !RemoveStudent(u, c)
  {
  }
}

module NewsPolicy {
  import opened Common
  import opened Models

  predicate ViewAny(u: User) {
    true
  }

  predicate View(u: User, n: News) {
    true
  }

  /** Any professor may post; the target course is not consulted (the
      controller passes it, the policy ignores it). */
  predicate Create(u: User) {
    IsProfessor(u)
  }

  predicate Update(u: User, n: News) {
    u.id == n.authorId
  }

  predicate Delete(u: User, n: News) {
    u.id == n.authorId
  }

  /** Everybody may list and view posts; any professor may create one,
      whatever the course. */
  lemma OpenAbilities(u: User, n: News)
    ensures ViewAny(u) && View(u, n)
    ensures Create(u) <==> u.role == ProfessorRole
  {
  }

  /** Only the author may edit or delete a post: owning the course it was
      posted to grants nothing, and neither does the role. */
  lemma AuthorOnly(u: User, n: News, c: Course, role: string)
    requires c.id == n.courseId && Owns(u, c) && u.id != n.authorId
    ensures !Update(u, n) && !Delete(u, n)
    ensures Update(u.(role := role), n) == Update(u, n)
    ensures Delete(u.(role := role), n) == Delete(u, n)
  {
  }
}

module MaterialPolicy {
  import opened Common
  import opened Models
  import CoursePolicy

  /** Only the course owner may upload material to it. */
  predicate Create(u: User, c: Course) {
    Owns(u, c)
  }

  /** Only the owner of the material's course may delete it. */
  predicate Delete(u: User, m: Material, course: Course)
    requires m.courseId == course.id
  {
    Owns(u, course)
  }

  predicate Download(u: User, m: Material) {
    true
  }

  /** MaterialController never asks this policy; it asks the course
      abilities update (upload, delete) and view (download). The decisions
      coincide, so the detour changes no outcome. */
  lemma ControllerChecksAgree(u: User, m: Material, course: Course)
    requires m.courseId == course.id
    ensures Create(u, course) == CoursePolicy.Update(u, course)
    ensures Delete(u, m, course) == CoursePolicy.Update(u, course)
    ensures Download(u, m) == CoursePolicy.View(u, course)
  {
  }

  /** No material decision depends on the role. */
  lemma RoleIrrelevant(u: User, m: Material, course: Course, role: string)
    requires m.courseId == course.id
    ensures Create(u.(role := role), course) == Create(u, course)
    ensures Delete(u.(role := role), m, course) == Delete(u, m, course)
  {
  }
}
