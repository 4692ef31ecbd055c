/**
 The persistent state of the backend: users, courses, news posts and the
 two pivot relations (course membership and news tags), together with the
 relation queries the models define (User::courses / enrolledCourses,
 User::taughtCourses, Course::enrolledStudents, News::tags).
 */
module Models {
  import opened Common

  type UserId = nat
  type CourseId = nat
  type NewsId = nat
  type TagId = nat

  /** The two roles registration accepts; the column itself is free text. */
  const StudentRole: string := "student"
  const ProfessorRole: string := "professor"

  /** A user row. `template` is the face_embedding column: null until a
      face is registered, afterwards the decoded embedding vector. */
  datatype User = User(
    id: UserId,
    name: string,
    email: string,
    passwordHash: string,
    role: string,
    template: Option<seq<real>>)

  /** A course row; `ownerId` is the user_id column (the professor who
      teaches it), which may be null. */
  datatype Course = Course(
    id: CourseId,
    title: string,
    description: string,
    ownerId: Option<UserId>,
    pin: string)

  /** A news row: its author (user_id) and the course it is posted to. */
  datatype News = News(
    id: NewsId,
    title: string,
    content: string,
    authorId: UserId,
    courseId: CourseId)

  /** A material row: an uploaded file attached to a course. */
  datatype Material = Material(
    id: nat,
    courseId: CourseId,
    fileName: string)

  /** A course_user pivot row: the course and the joined user. */
  type Membership = (CourseId, UserId)

  /** A news_tag pivot row; (news_id, tag_id) is its primary key, so the
      relation is a set. */
  type Tagging = (NewsId, TagId)

  /** The whole database, with rows of each table in storage order, and
      the auto-increment counters of the two tables rows are deleted from:
      the id the next inserted course or news post receives. */
  datatype Db = Db(
    users: seq<User>,
    courses: seq<Course>,
    members: set<Membership>,
    news: seq<News>,
    taggings: set<Tagging>,
    tags: set<TagId>,
    nextCourseId: CourseId,
    nextNewsId: NewsId)

  /** The allocation invariant of a database: every course or news id
      stored or referenced anywhere lies below its table's counter. As the
      counters only grow, an id that was ever handed out is never handed
      out again, even after its row is deleted. */
  predicate Allocated(db: Db) {
    && (forall c :: c in db.courses ==> c.id < db.nextCourseId)
    && (forall m :: m in db.members ==> m.0 < db.nextCourseId)
    && (forall n :: n in db.news ==> n.id < db.nextNewsId && n.courseId < db.nextCourseId)
    && (forall p :: p in db.taggings ==> p.0 < db.nextNewsId)
  }

  predicate IsStudent(u: User) {
    u.role == StudentRole
  }

  predicate IsProfessor(u: User) {
    u.role == ProfessorRole
  }

  /** The user teaches the course: its user_id column holds the user's id. */
  predicate Owns(u: User, c: Course) {
    c.ownerId == Some(u.id)
  }

  /** First row whose primary key (as read by `key`) is `id`, in storage
      order: what find, findOrFail and route-model binding look up. */
  function FindBy<T(!new)>(rows: seq<T>, key: T -> nat, id: nat): (r: Option<T>)
    ensures r.Some? ==> r.value in rows && key(r.value) == id
    ensures r.None? <==> forall x :: x in rows ==> key(x) != id
  {
    if |rows| == 0 then None
    else if key(rows[0]) == id then Some(rows[0])
    else FindBy(rows[1..], key, id)
  }

  /** A row appended under a key no earlier row has is found by that key. */
  lemma {:induction false} FindByAppended<T(!new)>(rows: seq<T>, key: T -> nat, x: T)
    requires forall y :: y in rows ==> key(y) != key(x)
    ensures FindBy(rows + [x], key, key(x)) == Some(x)
  {
    if |rows| == 0 {
      assert (rows + [x])[0] == x;
    } else {
      assert rows[0] in rows;
      assert (rows + [x])[1..] == rows[1..] + [x];
      assert forall y :: y in rows[1..] ==> y in rows;
      FindByAppended(rows[1..], key, x);
    }
  }

  function FindUser(users: seq<User>, id: UserId): Option<User> {
    FindBy(users, (u: User) => u.id, id)
  }

  function FindCourse(courses: seq<Course>, id: CourseId): Option<Course> {
    FindBy(courses, (c: Course) => c.id, id)
  }

  function FindNews(news: seq<News>, id: NewsId): Option<News> {
    FindBy(news, (n: News) => n.id, id)
  }

  /** The courses the user teaches (User::taughtCourses, keyed by the
      course's user_id). */
  function TaughtCourseIds(db: Db, u: User): set<CourseId> {
    set c | c in db.courses && Owns(u, c) :: c.id
  }

  /** The courses the user has joined (User::courses and
      User::enrolledCourses): pivot rows joined with the courses table, so
      a pivot row naming a deleted course contributes nothing. */
  function JoinedCourseIds(db: Db, u: User): set<CourseId> {
    set c | c in db.courses && (c.id, u.id) in db.members :: c.id
  }

  /** The users joined to a course (Course::enrolledStudents): pivot rows
      joined with the users table. */
  function MemberIds(db: Db, courseId: CourseId): set<UserId> {
    set u | u in db.users && (courseId, u.id) in db.members :: u.id
  }

  /** A key larger than every row's key: the next auto-increment value of
      a table no row is ever deleted from (users). */
  function FreshKey<T(!new)>(rows: seq<T>, key: T -> nat): (r: nat)
    ensures forall x :: x in rows ==> key(x) < r
  {
    if |rows| == 0 then 1
    else
      var rest := FreshKey(rows[1..], key);
      assert forall x :: x in rows ==> x == rows[0] || x in rows[1..];
      if key(rows[0]) < rest then rest else key(rows[0]) + 1
  }

  /** The id a newly inserted user receives. */
  function FreshUserId(users: seq<User>): UserId {
    FreshKey(users, (u: User) => u.id)
  }
}
