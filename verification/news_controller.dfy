/**
 NewsController: posting, editing and deleting course announcements, their
 tags (the news_tag pivot, a set of (news, tag) pairs), and the
 announcement feed of one user.
 */
module NewsController {
  import opened Common
  import opened Models
  import NewsPolicy

  const UnknownCourse: string := "Unknown Course"

  /** The tags of one news post. */
  function TagsOf(taggings: set<Tagging>, newsId: NewsId): (r: set<TagId>)
    ensures forall t :: t in r <==> (newsId, t) in taggings
  {
    set p | p in taggings && p.0 == newsId :: p.1
  }

  /** The pivot rows linking a post to each listed tag. */
  function Pairs(newsId: NewsId, tags: seq<TagId>): (r: set<Tagging>)
    ensures forall p :: p in r <==> p.0 == newsId && p.1 in tags
  {
    set t | t in tags :: (newsId, t)
  }

  /** Every listed tag exists (the 'tags.*' => 'exists:tags,id' rule). */
  predicate TagsExist(db: Db, tags: seq<TagId>) {
    forall t :: t in tags ==> t in db.tags
  }

  /** The validation rules of store, in terms of the request fields. */
  predicate ValidPost(db: Db, title: string, content: string, courseId: Option<CourseId>, tags: Option<seq<TagId>>) {
    && Required(title) && |title| <= MaxStringLength
    && Required(content)
    && courseId.Some? && FindCourse(db.courses, courseId.value).Some?
    && (tags.Some? ==> TagsExist(db, tags.value))
  }

  /** store: validation first (422), then the create ability (403); the
      post is recorded with the caller as author, and tags are attached only
      when a non-empty list was sent. */
  function Store(db: Db, caller: User, title: string, content: string,
                 courseId: Option<CourseId>, tags: Option<seq<TagId>>): (r: Reply<(News, Db)>)
    ensures !ValidPost(db, title, content, courseId, tags) ==> r.Fail? && r.status == Unprocessable
    ensures ValidPost(db, title, content, courseId, tags) && !NewsPolicy.Create(caller) ==>
      r == Fail(Forbidden, ThisActionIsUnauthorized)
    ensures r.Ok? <==> ValidPost(db, title, content, courseId, tags) && NewsPolicy.Create(caller)
    ensures r.Ok? ==>
      var (n, after) := r.value;
      && n.authorId == caller.id && n.courseId == courseId.value
      && n.title == title && n.content == content
      && n.id == db.nextNewsId
      && after.news == db.news + [n]
      && after == db.(news := after.news, taggings := after.taggings, nextNewsId := n.id + 1)
      && after.taggings == db.taggings + (if tags.Some? then Pairs(n.id, tags.value) else {})
    ensures r.Ok? && Allocated(db) ==>
      && (forall m :: m in db.news ==> m.id != r.value.0.id)
      && Allocated(r.value.1)
  {
    if !ValidPost(db, title, content, courseId, tags) then
      Fail(Unprocessable,
        if !(Required(title) && |title| <= MaxStringLength) then "title"
        else if !Required(content) then "content"
        else if courseId.None? || FindCourse(db.courses, courseId.value).None? then "course_id"
        else "tags")
    else if !NewsPolicy.Create(caller) then Fail(Forbidden, ThisActionIsUnauthorized)
    else
      var n := News(db.nextNewsId, title, content, caller.id, courseId.value);
      var attached := if tags.Some? && |tags.value| > 0 then Pairs(n.id, tags.value) else {};
      assert tags.Some? && |tags.value| == 0 ==> Pairs(n.id, tags.value) == {};
      Ok((n, db.(news := db.news + [n], taggings := db.taggings + attached, nextNewsId := db.nextNewsId + 1)))
  }

  /** A new post's tags are exactly the tags sent with it (none when the
      list is null or empty): no earlier pivot row can name the new id. */
  lemma StoreTagsAreTheSentTags(db: Db, caller: User, title: string, content: string,
                                courseId: Option<CourseId>, tags: Option<seq<TagId>>)
    requires Store(db, caller, title, content, courseId, tags).Ok?
    requires Allocated(db)
    ensures
      var (n, after) := Store(db, caller, title, content, courseId, tags).value;
      forall t :: t in TagsOf(after.taggings, n.id) <==> tags.Some? && t in tags.value
  {
    var (n, after) := Store(db, caller, title, content, courseId, tags).value;
    assert forall p :: p in db.taggings ==> p.0 != n.id;
  }

  /** Validation comes before authorization in store: a student sending an
      empty title is told 422, not 403. */
  lemma StoreValidatesFirst(db: Db, caller: User, content: string,
                            courseId: Option<CourseId>, tags: Option<seq<TagId>>)
    requires !IsProfessor(caller)
    ensures Store(db, caller, "", content, courseId, tags).Fail?
    ensures Store(db, caller, "", content, courseId, tags).status == Unprocessable
  {
  }

  /** The tags key of an update request: absent, present but null, or a
      list of tag ids. */
  datatype TagsField = Absent | Null | Given(ids: seq<TagId>)

  /** The validation rules of update. */
  predicate ValidEdit(db: Db, title: Option<string>, content: Option<string>, tags: TagsField) {
    && (title.Some? ==> Required(title.value) && |title.value| <= MaxStringLength)
    && (content.Some? ==> Required(content.value))
    && (tags.Given? ==> TagsExist(db, tags.ids))
  }

  /** The post's tag rows after a sync with `tags` (null syncs to none). */
  function Sync(taggings: set<Tagging>, newsId: NewsId, tags: TagsField): (r: set<Tagging>)
    requires !tags.Absent?
    ensures forall p: Tagging :: p.0 != newsId ==> (p in r <==> p in taggings)
    ensures forall t :: t in TagsOf(r, newsId) <==> tags.Given? && t in tags.ids
  {
    var others := set p | p in taggings && p.0 != newsId;
    if tags.Given? then others + Pairs(newsId, tags.ids) else others
  }

  /** `after` is `before` with the sent title and content written into the
      posts carrying `newsId`, and every other post as it was. */
  predicate EditsPosts(before: seq<News>, after: seq<News>, newsId: NewsId,
                       title: Option<string>, content: Option<string>) {
    |after| == |before| && forall i :: 0 <= i < |before| ==>
      var (b, a) := (before[i], after[i]);
      if b.id != newsId then a == b
      else a == b.(title := if title.Some? then title.value else b.title,
                   content := if content.Some? then content.value else b.content)
  }

  /** Writing the same fields twice is writing them once. */
  lemma EditsPostsTwice(before: seq<News>, once: seq<News>, twice: seq<News>, newsId: NewsId,
                        title: Option<string>, content: Option<string>)
    requires EditsPosts(before, once, newsId, title, content)
    requires EditsPosts(once, twice, newsId, title, content)
    ensures twice == once
  {
    forall i | 0 <= i < |once|
      ensures twice[i] == once[i]
    {
    }
  }

  /** update: 404 for an unknown post, 403 unless the caller is its author,
      422 for an invalid field; then the sent fields are written, and when
      the tags key is present the post's tags become exactly the sent set. */
  function Update(db: Db, caller: User, newsId: NewsId, title: Option<string>, content: Option<string>,
                  tags: TagsField): (r: Reply<Db>)
    ensures FindNews(db.news, newsId).None? ==> r == Fail(NotFound, NoQueryResults)
    ensures FindNews(db.news, newsId).Some? && !NewsPolicy.Update(caller, FindNews(db.news, newsId).value) ==>
      r == Fail(Forbidden, ThisActionIsUnauthorized)
    ensures FindNews(db.news, newsId).Some? && NewsPolicy.Update(caller, FindNews(db.news, newsId).value) ==>
      (r.Ok? <==> ValidEdit(db, title, content, tags))
    ensures FindNews(db.news, newsId).Some? && NewsPolicy.Update(caller, FindNews(db.news, newsId).value)
            && !ValidEdit(db, title, content, tags) ==>
      r.Fail? && r.status == Unprocessable
    ensures r.Ok? ==> r.value == db.(news := r.value.news, taggings := r.value.taggings)
    ensures r.Ok? && tags.Absent? ==> r.value.taggings == db.taggings
    ensures r.Ok? && !tags.Absent? ==> forall t :: t in TagsOf(r.value.taggings, newsId) <==> tags.Given? && t in tags.ids
    ensures r.Ok? ==> forall p: Tagging :: p.0 != newsId ==> (p in r.value.taggings <==> p in db.taggings)
    ensures r.Ok? ==> EditsPosts(db.news, r.value.news, newsId, title, content)
  {
    match FindNews(db.news, newsId)
    case None => Fail(NotFound, NoQueryResults)
    case Some(n) =>
      if !NewsPolicy.Update(caller, n) then Fail(Forbidden, ThisActionIsUnauthorized)
      else if !ValidEdit(db, title, content, tags) then
        Fail(Unprocessable,
          if title.Some? && !(Required(title.value) && |title.value| <= MaxStringLength) then "title"
          else if content.Some? && !Required(content.value) then "content"
          else "tags")
      else
        var news := seq(|db.news|, i requires 0 <= i < |db.news| =>
          if db.news[i].id != newsId then db.news[i]
          else db.news[i].(title := if title.Some? then title.value else db.news[i].title,
                           content := if content.Some? then content.value else db.news[i].content));
        Ok(db.(news := news, taggings := if tags.Absent? then db.taggings else Sync(db.taggings, newsId, tags)))
  }

  /** Repeating an update changes nothing further. */
  lemma UpdateIsIdempotent(db: Db, caller: User, newsId: NewsId, title: Option<string>, content: Option<string>,
                           tags: TagsField)
    requires Update(db, caller, newsId, title, content, tags).Ok?
    ensures
      var once := Update(db, caller, newsId, title, content, tags).value;
      Update(once, caller, newsId, title, content, tags) == Ok(once)
  {
    var once := Update(db, caller, newsId, title, content, tags).value;
    FindNewsAfterEdit(db.news, once.news, newsId);
    assert ValidEdit(once, title, content, tags) by {
      assert once.tags == db.tags;
    }
    var again := Update(once, caller, newsId, title, content, tags);
    assert again.Ok?;
    var twice := again.value;
    EditsPostsTwice(db.news, once.news, twice.news, newsId, title, content);
    if !tags.Absent? {
      SyncIsIdempotent(db.taggings, newsId, tags);
    }
    assert twice.taggings == once.taggings;
  }

  /** Syncing a post's tags twice to the same list is syncing once. */
  lemma SyncIsIdempotent(taggings: set<Tagging>, newsId: NewsId, tags: TagsField)
    requires !tags.Absent?
    ensures Sync(Sync(taggings, newsId, tags), newsId, tags) == Sync(taggings, newsId, tags)
  {
    var once := Sync(taggings, newsId, tags);
    var twice := Sync(once, newsId, tags);
    forall p: Tagging
      ensures p in twice <==> p in once
    {
      if p.0 == newsId {
        assert p in twice <==> p.1 in TagsOf(twice, newsId);
        assert p in once <==> p.1 in TagsOf(once, newsId);
      }
    }
  }

  /** Editing fields of the posts with one id keeps that id findable, with
      the same author. */
  lemma {:induction false} FindNewsAfterEdit(before: seq<News>, after: seq<News>, newsId: NewsId)
    requires FindNews(before, newsId).Some?
    requires |after| == |before|
    requires forall i :: 0 <= i < |before| ==> after[i].id == before[i].id && after[i].authorId == before[i].authorId
    ensures FindNews(after, newsId).Some?
    ensures FindNews(after, newsId).value.authorId == FindNews(before, newsId).value.authorId
  {
    if before[0].id != newsId {
      FindNewsAfterEdit(before[1..], after[1..], newsId);
    }
  }

  /** The owner of the course a post was published in, if not its author,
      may not edit the post. */
  lemma CourseOwnerCannotEditOthersPost(db: Db, caller: User, newsId: NewsId, course: Course,
                                        title: Option<string>, content: Option<string>, tags: TagsField)
    requires FindNews(db.news, newsId).Some?
    requires course.id == FindNews(db.news, newsId).value.courseId && Owns(caller, course)
    requires caller.id != FindNews(db.news, newsId).value.authorId
    ensures Update(db, caller, newsId, title, content, tags) == Fail(Forbidden, ThisActionIsUnauthorized)
  {
  }

  /** destroy: 404 for an unknown post, 403 unless the caller is its author;
      otherwise the post is deleted together with its tag rows (the pivot's
      foreign key cascades). */
  function Destroy(db: Db, caller: User, newsId: NewsId): (r: Reply<Db>)
    ensures FindNews(db.news, newsId).None? ==> r == Fail(NotFound, NoQueryResults)
    ensures FindNews(db.news, newsId).Some? ==>
      (r.Ok? <==> NewsPolicy.Delete(caller, FindNews(db.news, newsId).value))
    ensures r.Fail? && FindNews(db.news, newsId).Some? ==> r == Fail(Forbidden, ThisActionIsUnauthorized)
    ensures r.Ok? ==> r.value == db.(news := r.value.news, taggings := r.value.taggings)
    ensures r.Ok? ==> forall n :: n in r.value.news <==> n in db.news && n.id != newsId
    ensures r.Ok? ==> forall p :: p in r.value.taggings <==> p in db.taggings && p.0 != newsId
  {
    match FindNews(db.news, newsId)
    case None => Fail(NotFound, NoQueryResults)
    case Some(n) =>
      if !NewsPolicy.Delete(caller, n) then Fail(Forbidden, ThisActionIsUnauthorized)
      else
        Ok(db.(news := Filter(db.news, (m: News) => m.id != newsId),
               taggings := set p | p in db.taggings && p.0 != newsId))
  }

  /** One entry of a user's feed: the post and its course's title. */
  datatype Announcement = Announcement(news: News, courseTitle: string)

  /** The title of the post's course, or "Unknown Course" when the course
      row is missing. */
  function CourseTitle(db: Db, courseId: CourseId): string
  {
    match FindCourse(db.courses, courseId)
    case None => UnknownCourse
    case Some(c) => c.title
  }

  /** The courses whose announcements a user sees: taught ones for a
      professor, joined ones for everybody else. */
  function FeedCourseIds(db: Db, caller: User): set<CourseId> {
    if IsProfessor(caller) then TaughtCourseIds(db, caller) else JoinedCourseIds(db, caller)
  }

  function Announce(db: Db, news: seq<News>): (r: seq<Announcement>)
    ensures |r| == |news|
    ensures forall i :: 0 <= i < |news| ==> r[i] == Announcement(news[i], CourseTitle(db, news[i].courseId))
  {
    seq(|news|, i requires 0 <= i < |news| => Announcement(news[i], CourseTitle(db, news[i].courseId)))
  }

  /** indexForUser: every post whose course is among the user's courses,
      each labelled with its course's title. */
  function IndexForUser(db: Db, caller: User): (r: seq<Announcement>)
    ensures forall a :: a in r ==>
      && a.news in db.news
      && a.news.courseId in FeedCourseIds(db, caller)
      && a.courseTitle == CourseTitle(db, a.news.courseId)
    ensures forall n :: n in db.news && n.courseId in FeedCourseIds(db, caller) ==>
      Announcement(n, CourseTitle(db, n.courseId)) in r
  {
    var ids := FeedCourseIds(db, caller);
    var visible := Filter(db.news, (n: News) => n.courseId in ids);
    var r := Announce(db, visible);
    assert forall i :: 0 <= i < |visible| ==> visible[i] in visible;
    assert forall n :: n in visible ==> Announcement(n, CourseTitle(db, n.courseId)) in r by {
      forall n | n in visible ensures Announcement(n, CourseTitle(db, n.courseId)) in r {
        var i :| 0 <= i < |visible| && visible[i] == n;
        assert r[i] == Announcement(n, CourseTitle(db, n.courseId));
      }
    }
    r
  }

  /** The feed never falls back to "Unknown Course", whatever the role:
      both relations join the courses table, so each listed post's course
      row exists and its label is that course's title. */
  lemma FeedShowsCourseTitles(db: Db, caller: User)
    ensures forall a :: a in IndexForUser(db, caller) ==>
      && FindCourse(db.courses, a.news.courseId).Some?
      && exists c :: c in db.courses && c.id == a.news.courseId && a.courseTitle == c.title
  {
    forall a | a in IndexForUser(db, caller)
      ensures FindCourse(db.courses, a.news.courseId).Some?
    {
      var c :| c in db.courses && c.id == a.news.courseId;
    }
  }

  /** The partner of store: deleting a post just stored by its author
      restores the state, except that the id counter has moved on. */
  lemma StoreThenDestroyRestores(db: Db, caller: User, title: string, content: string,
                                 courseId: Option<CourseId>, tags: Option<seq<TagId>>)
    requires Store(db, caller, title, content, courseId, tags).Ok?
    requires Allocated(db)
    ensures
      var (n, after) := Store(db, caller, title, content, courseId, tags).value;
      Destroy(after, caller, n.id) == Ok(db.(nextNewsId := db.nextNewsId + 1))
  {
    var (n, after) := Store(db, caller, title, content, courseId, tags).value;
    var moved := db.(nextNewsId := db.nextNewsId + 1);
    var added := after.taggings - db.taggings;
    assert after == moved.(news := moved.news + [n], taggings := moved.taggings + added);
    DestroyUndoesInsert(moved, n, added, caller);
  }

  /** Deleting a post inserted under a new id, together with tag rows that
      all name it, gives back the state before the insert. */
  lemma DestroyUndoesInsert(db: Db, n: News, added: set<Tagging>, caller: User)
    requires forall m :: m in db.news ==> m.id != n.id
    requires forall p :: p in db.taggings ==> p.0 != n.id
    requires forall p :: p in added ==> p.0 == n.id
    requires caller.id == n.authorId
    ensures Destroy(db.(news := db.news + [n], taggings := db.taggings + added), caller, n.id) == Ok(db)
  {
    var after := db.(news := db.news + [n], taggings := db.taggings + added);
    FindByAppended(db.news, (m: News) => m.id, n);
    assert FindNews(after.news, n.id) == Some(n);
    var keep := (m: News) => m.id != n.id;
    FilterDropsLast(db.news, n, keep);
    FilterKeepsAll(db.news, keep);
    UntagRestores(db.taggings, added, n.id);
  }

  /** Dropping every tag row of a post removes exactly the rows added for
      it, when no earlier row named it. */
  lemma UntagRestores(taggings: set<Tagging>, added: set<Tagging>, newsId: NewsId)
    requires forall p :: p in taggings ==> p.0 != newsId
    requires forall p :: p in added ==> p.0 == newsId
    ensures (set p | p in taggings + added && p.0 != newsId) == taggings
  {
  }

  /** Every write of this controller keeps the allocation invariant. */
  lemma WritesKeepAllocated(db: Db, caller: User, newsId: NewsId, title: string, content: string,
                            courseId: Option<CourseId>, tags: Option<seq<TagId>>,
                            newTitle: Option<string>, newContent: Option<string>, newTags: TagsField)
    requires Allocated(db)
    ensures Store(db, caller, title, content, courseId, tags).Ok? ==>
      Allocated(Store(db, caller, title, content, courseId, tags).value.1)
    ensures Update(db, caller, newsId, newTitle, newContent, newTags).Ok? ==>
      Allocated(Update(db, caller, newsId, newTitle, newContent, newTags).value)
    ensures Destroy(db, caller, newsId).Ok? ==> Allocated(Destroy(db, caller, newsId).value)
  {
    var r := Update(db, caller, newsId, newTitle, newContent, newTags);
    if r.Ok? {
      var after := r.value;
      var n := FindNews(db.news, newsId).value;
      assert n in db.news;
      forall m | m in after.news
        ensures m.id < after.nextNewsId && m.courseId < after.nextCourseId
      {
        var i :| 0 <= i < |after.news| && after.news[i] == m;
        assert db.news[i] in db.news;
      }
    }
  }

  /** A post by one professor in a course another professor teaches shows up
      in the teacher's feed although the teacher did not write it; the
      create ability never looks at the course. */
  lemma AnyProfessorMayPostAnywhere(db: Db, author: User, courseId: CourseId, title: string, content: string)
    requires IsProfessor(author)
    requires Required(title) && |title| <= MaxStringLength && Required(content)
    requires FindCourse(db.courses, courseId).Some?
    requires !Owns(author, FindCourse(db.courses, courseId).value)
    ensures Store(db, author, title, content, Some(courseId), None).Ok?
  {
  }
}
