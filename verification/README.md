# E-learning backend: a Dafny model

This project models the parts of the e-learning platform's Laravel backend whose behaviour can be stated exactly:

- **Biometric login.** A user registers a face embedding, stored as that user's template. Biometric login scans the enrolled users in storage order and logs in the first one whose template lies strictly closer than 0.6 to the probe.
- **Course membership.** The course_user pivot is modelled as a set of (course, user) pairs. Students join by a six-character PIN. Professors list, enrol and remove students, and create, edit and delete courses.
- **News posts.** Posting, editing and deleting announcements, their tags (the news_tag pivot, a set of (news, tag) pairs), and one user's announcement feed.
- **Authorization policies.** `CoursePolicy`, `NewsPolicy` and `MaterialPolicy` are modelled as boolean predicates of role and ownership.

The state is one immutable value, `Models.Db`. It holds the users, courses and news posts in storage order, the two pivot relations as sets, the set of tag ids, and the auto-increment counters of the courses and news tables. A deleted row's id is never handed out again, as with the database's auto-increment columns; `Models.Allocated` states that every stored or referenced course and news id lies below its counter, and every write keeps it. Each controller action is a pure function from a state and a request to a `Reply`:

- `Ok(payload)` on success; for a writing action the payload includes the new state.
- `Fail(status, message)` on failure: 401, 403, 404 or 422. A failed action produces no new state, so nothing is written.

Modules follow the source:

| module | models |
|---|---|
| `Common` | Option, Reply, an order-preserving filter, ASCII upper-casing |
| `Models` | rows, relations, id allocation |
| `Biometric` | the matcher |
| `AuthController` | registration and login flows |
| `EnrollmentController` | joining a course by PIN |
| `CourseController` | course actions |
| `NewsController` | news actions |
| `CoursePolicy`, `NewsPolicy`, `MaterialPolicy` | the policy classes |

Numbers and library calls are handled as follows:

- **Embeddings** are `seq<real>`, so the model uses exact reals where the source uses doubles. The source tests `sqrt(sum) < 0.6`. The model tests `sum < 0.36`, the same test because both sides are non-negative (`Biometric.ThresholdOnSquares`).
- **Random PIN strings** are parameters: `Str::random(6)` before upper-casing.
- **Email-format check and password hashing** (`Hash::make`, `Hash::check`) are function parameters.
- **Token issuance** is not modelled: a successful login answers with the user a token would be issued for.
- **Route-model binding and `findOrFail`** answer 404 before the action body runs.
- **Validation failures** answer 422. A failed validation rule answers with the failing field's name, not Laravel's localized text. The 422s the controllers raise themselves (login's credentials rejection, enrollStudent's non-student target) carry the source's own message.
- **The `required` rule** rejects a missing value and a string made only of the blanks PHP's `trim` strips (`Common.Required`), for every field, passwords included.

## Model

| member | source | states |
|---|---|---|
| `Biometric.SquaredDistance` | backend/app/Http/Controllers/AuthController.php:121-128 | the sum of squared element differences is non-negative and is zero for a probe equal to the template |
| `Biometric.ThresholdOnSquares` | backend/app/Http/Controllers/AuthController.php:89-99 | for a non-negative distance, distance < 0.6 holds exactly when its square is < 0.36, so comparing sums is the source's test |
| `Biometric.Enrolled` | backend/app/Http/Controllers/AuthController.php:88 | the candidates are exactly the users whose template column is not null |
| `Biometric.FirstMatch` | backend/app/Http/Controllers/AuthController.php:91-109 | the scan returns an accepted position with no accepted position before it, and nothing only when no user is accepted |
| `Biometric.FirstMatchIsLeastAccepted` | backend/app/Http/Controllers/AuthController.php:91-109 | the scan's answer is the minimum of the set of accepted positions, and it is empty exactly when that set is empty |
| `Biometric.EnrolledScanAgrees` | backend/app/Http/Controllers/AuthController.php:88-95 | scanning only the non-null templates picks the same user as scanning all users, because a null template is never accepted |
| `Biometric.BoundaryIsRejected` | backend/app/Http/Controllers/AuthController.php:99 | a template at distance exactly 0.6 is rejected: the comparison is strict |
| `Biometric.SelfIsAccepted` | backend/app/Http/Controllers/AuthController.php:93-99 | a non-empty template equal to the probe has distance 0 and is accepted |
| `Biometric.SelfMatch` | backend/app/Http/Controllers/AuthController.php:91-108 | a probe equal to user i's template matches a user at position at most i, and exactly i when nobody earlier is accepted |
| `Biometric.ThresholdBoundaryExample` | backend/app/Http/Controllers/AuthController.php:89-99 | with template [0], probe [0.6] is rejected and probe [0.59] is accepted |
| `Biometric.FirstMatchIsNotClosest` | backend/app/Http/Controllers/AuthController.php:91-108 | first match wins: the first user (distance 0.45) is chosen though the second (distance 0.05) is closer |
| `AuthController.FindByEmail` | backend/app/Http/Controllers/AuthController.php:46 | the lookup returns a user with that email, and nothing exactly when no user has it |
| `AuthController.Register` | backend/app/Http/Controllers/AuthController.php:13-36 | registration succeeds exactly when name, email (format, length, uniqueness), password (at least 8 characters, confirmed) and role (student or professor) are valid, where a blank name, email or password counts as missing; failures are 422; the new user has a fresh id, the requested role, the hashed password and no face template |
| `AuthController.RegisterKeepsEmailsUnique` | backend/app/Http/Controllers/AuthController.php:17 | registration preserves the invariant that no two users share an email |
| `AuthController.Login` | backend/app/Http/Controllers/AuthController.php:39-61 | a login succeeds only for the first user in storage order with that email, and then exactly when its hash check passes; the answer is that user; an unknown email is the credentials rejection; every failure is 422 |
| `AuthController.LoginRejectionIsUniform` | backend/app/Http/Controllers/AuthController.php:48-51 | an unknown email and a wrong password produce the identical reply |
| `AuthController.RegisterThenLogin` | backend/app/Http/Controllers/AuthController.php:26-54 | a freshly registered user logs in with the same email and password whenever the hash check accepts its own hashes |
| `AuthController.RegisterFace` | backend/app/Http/Controllers/AuthController.php:64-78 | a missing or empty embedding is 422; otherwise the caller's template becomes the vector and every other user is unchanged |
| `AuthController.RegisterFaceRoundTrip` | backend/app/Http/Controllers/AuthController.php:70-72 | after registering v, the caller's stored template is exactly v |
| `AuthController.RegisterFaceLastWriteWins` | backend/app/Http/Controllers/AuthController.php:70-72 | registering v1 then v2 gives the same users as registering v2 alone |
| `AuthController.LoginBiometric` | backend/app/Http/Controllers/AuthController.php:81-112 | an invalid probe is 422; no accepted user is 401 "Authentication failed. Face not recognized."; otherwise the answer is the first accepted user in storage order |
| `AuthController.NoEnrolledUsersRejects` | backend/app/Http/Controllers/AuthController.php:88-111 | with no enrolled user every valid probe is the 401 rejection |
| `AuthController.MismatchedLengthNeverMatches` | backend/app/Http/Controllers/AuthController.php:92-95 | a template of a different length from the probe is never the user logged in, and only the 401 can fail |
| `AuthController.LoginAfterRegisterFace` | backend/app/Http/Controllers/AuthController.php:70-108 | after registering v, logging in with v succeeds, and logs in the registrant unless an earlier user already accepts v |
| `AuthController.EndToEndScenario` | backend/app/Http/Controllers/AuthController.php:81-112 | with A=[0.1,0.2,0.3] and B=[0.9,0.8,0.7] enrolled, probe [0.11,0.19,0.29] logs in A and probe [5,5,5] is rejected with 401 |
| `EnrollmentController.FirstWithPin` | backend/app/Http/Controllers/EnrollmentController.php:17 | the lookup returns the first course carrying the PIN, and nothing exactly when no course carries it |
| `EnrollmentController.EnrollWithPin` | backend/app/Http/Controllers/EnrollmentController.php:11-35 | a blank PIN or one not 6 characters long is 422; an unknown upper-cased PIN is 404 whatever the role; a non-student is 403; the request succeeds exactly when none of these applies, and a success adds only the (course, caller) pair and changes nothing else |
| `EnrollmentController.EnrollKeepsAllocated` | backend/app/Http/Controllers/EnrollmentController.php:29 | enrolling keeps the allocation invariant: the new pivot row names an existing course |
| `EnrollmentController.BlankPinIsUnprocessable` | backend/app/Http/Controllers/EnrollmentController.php:13-15 | a PIN of six spaces is refused with 422 by the required rule, whoever asks and whatever courses exist |
| `EnrollmentController.UnknownPinBeatsRole` | backend/app/Http/Controllers/EnrollmentController.php:17-27 | the PIN check precedes the role check: an unknown PIN is 404 for any caller |
| `EnrollmentController.PinIsCaseInsensitive` | backend/app/Http/Controllers/EnrollmentController.php:17 | every letter-case variant of a course's upper-case PIN enrols a student into the first course carrying it |
| `EnrollmentController.EnrollIsIdempotent` | backend/app/Http/Controllers/EnrollmentController.php:29 | a repeated enrolment leaves the state the first one produced |
| `EnrollmentController.EnrollAddsOnlyCallerPair` | backend/app/Http/Controllers/EnrollmentController.php:29 | every membership other than (course, caller) is present after enrolment exactly when it was before |
| `EnrollmentController.EnrollJoinsOnlyThatCourse` | backend/app/Http/Controllers/EnrollmentController.php:29 | through the User::courses relation, the caller's courses gain exactly the found course and no other user's courses change |
| `CoursePolicy.OpenAbilities` | backend/app/Policies/CoursePolicy.php:12-25 | viewAny and view allow everybody; create allows exactly professors |
| `CoursePolicy.OwnerAbilities` | backend/app/Policies/CoursePolicy.php:28-53 | update, delete, viewEnrolledStudents, enrollStudent and removeStudent all allow exactly the user whose id is the course's user_id, whatever the role |
| `CoursePolicy.OwnerlessCourseIsLocked` | backend/app/Policies/CoursePolicy.php:28-53 | a course whose user_id is null grants no owner-only ability to anybody |
| `NewsPolicy.OpenAbilities` | backend/app/Policies/NewsPolicy.php:10-23 | viewAny and view allow everybody; create allows exactly professors, with no course involved |
| `NewsPolicy.AuthorOnly` | backend/app/Policies/NewsPolicy.php:25-33 | update and delete ignore course ownership and role: a course owner who is not the author is refused |
| `MaterialPolicy.ControllerChecksAgree` | backend/app/Policies/MaterialPolicy.php:12-27 | create and delete decide exactly as the course update ability that the material controller actually checks, and download as course view |
| `MaterialPolicy.RoleIrrelevant` | backend/app/Policies/MaterialPolicy.php:12-21 | no material decision changes with the role |
| `Models.FindBy` | backend/app/Http/Controllers/CourseController.php:133 | a primary-key lookup finds a row carrying the key, and finds nothing exactly when no row carries it |
| `Models.FindByAppended` | backend/app/Http/Controllers/NewsController.php:35-39 | a row inserted under a key no existing row has is found again by that key |
| `Models.FreshKey` | backend/app/Http/Controllers/AuthController.php:26-31 | the id a new user receives is larger than every existing user's id; no user row is ever deleted, so it was never used |
| `CourseController.GeneratePin` | backend/app/Http/Controllers/CourseController.php:25 | a generated PIN has 6 characters and no lower-case letter |
| `CourseController.ChangePin` | backend/app/Http/Controllers/CourseController.php:21-32 | an unknown course is 404; a caller without the update ability is 403; it succeeds exactly when neither applies, and then only that course's PIN changes, to the upper-cased random string (6 characters, no lower-case letter) |
| `CourseController.EnrollByNewPin` | backend/app/Http/Controllers/CourseController.php:25-26 | after a PIN change from a non-blank random string (Str::random never yields blanks), a student typing the new PIN in any letter case joins the changed course when no earlier course carries that PIN; memberships are untouched |
| `CourseController.ChangePinRetiresOldPin` | backend/app/Http/Controllers/CourseController.php:25-26 | after a PIN change, a lookup by any other PIN never lands on the changed course |
| `CourseController.StoreChecks` | backend/app/Http/Controllers/CourseController.php:64-77 | a non-professor is refused with 403 before validation; a professor passes exactly when title and description are not blank and the title has at most 255 characters, and is otherwise refused with 422 |
| `CourseController.StoreAsWritten` | backend/app/Http/Controllers/CourseController.php:64-85 | as written, it fails exactly when the checks fail (403 for a non-professor, otherwise 422); on success the new course has the sent title and description, a 6-character upper-case PIN, the next course id and a null user_id, the creator is added to the course_user pivot, and nothing else changes but the counter |
| `CourseController.StoreAsWrittenLosesOwnership` | backend/app/Http/Controllers/CourseController.php:82 | after the as-written store, the creating professor does not teach the course and may not update it, but has joined it |
| `CourseController.Store` | backend/app/Http/Controllers/CourseController.php:64-85 | corrected store: fails exactly on the checks (403 for a non-professor, otherwise 422); on success it appends one course owned by the caller with the sent fields, a 6-character upper-case PIN and the next course id, which no stored course has, and nothing else changes but the counter; the allocation invariant is kept |
| `CourseController.StoreAsWrittenAlwaysReached` | backend/app/Http/Controllers/CourseController.php:64-85 | every professor sending a non-blank title of at most 255 characters and a non-blank description reaches the as-written create |
| `CourseController.StoreMakesCreatorOwner` | backend/app/Http/Controllers/CourseController.php:79-82 | with the corrected store the creator teaches the new course, it is in the creator's course list, and the creator may change its PIN |
| `CourseController.StoredCourseStartsEmpty` | backend/app/Http/Controllers/CourseController.php:82 | a newly stored course has no joined users, is in nobody's joined courses and has no news post, even when pivot rows or posts of a deleted course remain |
| `CourseController.StoreTeachesOnlyNewCourse` | backend/app/Http/Controllers/CourseController.php:82 | with the corrected store, the creator's taught courses gain exactly the new course and nobody else's change |
| `CourseController.IndexWithStudents` | backend/app/Http/Controllers/CourseController.php:33-46 | a non-professor is 403; a professor gets every taught course and only those, each with exactly its joined users |
| `CourseController.RostersAgreeWithListStudents` | backend/app/Http/Controllers/CourseController.php:41-43 | each roster lists every joined user; restricted to students, it is exactly what listStudents answers for that course |
| `CourseController.IndexForUser` | backend/app/Http/Controllers/CourseController.php:49-63 | a professor sees exactly the courses they own; anyone else sees exactly the courses they joined |
| `CourseController.EnrolledCourseIsListed` | backend/app/Http/Controllers/CourseController.php:54-60 | after enrolling by PIN, the course appears in the student's course list |
| `CourseController.Update` | backend/app/Http/Controllers/CourseController.php:98-110 | an unknown course is 404; for an existing course an empty or too long field is 422 and success is exactly a valid edit; then only the sent fields of that course change |
| `CourseController.Destroy` | backend/app/Http/Controllers/CourseController.php:112-119 | an unknown course is 404; otherwise the remaining courses are exactly the others |
| `CourseController.DestroyHidesCourseNews` | backend/app/Http/Controllers/CourseController.php:112-119 | after a course is deleted, no user's news feed shows a post of it, because the feed's relations join the courses table |
| `CourseController.EditsKeepAllocated` | backend/app/Http/Controllers/CourseController.php:21-32 | changing a PIN or editing a course keeps the allocation invariant, because no id changes |
| `CourseController.RowWritesKeepAllocated` | backend/app/Http/Controllers/CourseController.php:79-150 | the as-written store, destroy, enrollStudent and removeStudent keep the allocation invariant |
| `CourseController.DeletedIdIsNotReused` | backend/app/Http/Controllers/CourseController.php:79-119 | concretely, after deleting course 2 that a student had joined and that had a post, the next stored course gets id 3, and the student neither joins it nor sees the old post |
| `CourseController.ListStudents` | backend/app/Http/Controllers/CourseController.php:120-124 | the listed users are exactly the joined users whose role is student |
| `CourseController.EnrollStudent` | backend/app/Http/Controllers/CourseController.php:126-141 | an unknown course is 404; a missing or unknown target is 422 and a non-student target is 422; the request succeeds exactly when none of these applies, and then the pair is added and nothing else changes |
| `CourseController.RemoveStudent` | backend/app/Http/Controllers/CourseController.php:143-150 | an unknown course or user is 404; otherwise that one pair is gone and every other membership is kept |
| `CourseController.RemoveLeavesOnlyThatCourse` | backend/app/Http/Controllers/CourseController.php:147 | through the User::courses relation, the student loses exactly that course and no other user's courses change |
| `CourseController.ListReflectsEnrollAndRemove` | backend/app/Http/Controllers/CourseController.php:120-150 | a student enrolled by enrollStudent is listed by listStudents, and after removeStudent is no longer listed |
| `CourseController.EnrollStudentIsIdempotent` | backend/app/Http/Controllers/CourseController.php:138 | enrolling the same student twice leaves the state of the first enrolment |
| `CourseController.EnrollThenRemoveRestores` | backend/app/Http/Controllers/CourseController.php:126-150 | removing a student who was just newly enrolled restores the previous state |
| `CourseController.DiscardedGatesEnforceNothing` | backend/app/Http/Controllers/CourseController.php:98-150 | update, destroy, listStudents, enrollStudent and removeStudent answer a non-owner, whom the policy would refuse, exactly as they answer the owner |
| `CourseController.NonOwnerCanUpdate` | backend/app/Http/Controllers/CourseController.php:98-110 | concretely, a student who does not own a course renames it |
| `NewsController.Store` | backend/app/Http/Controllers/NewsController.php:21-46 | an invalid field is 422, checked before the create ability (403); on success one post is appended with the caller as author and the next news id, which no stored post has, plus pivot rows for the sent tags, and nothing else changes but the counter; the allocation invariant is kept |
| `NewsController.StoreTagsAreTheSentTags` | backend/app/Http/Controllers/NewsController.php:41-43 | a new post's tags are exactly the sent tags, and none when the list is null or empty |
| `NewsController.StoreValidatesFirst` | backend/app/Http/Controllers/NewsController.php:23-33 | a non-professor with an empty title gets 422, not 403 |
| `NewsController.Sync` | backend/app/Http/Controllers/NewsController.php:68-70 | after the sync the post's tags are exactly the sent set (none for null), and other posts' rows are untouched |
| `NewsController.Update` | backend/app/Http/Controllers/NewsController.php:55-73 | an unknown post is 404; a non-author is 403; for the author an invalid field is 422 and success is exactly a valid edit; on success only the sent fields change; tags become exactly the sent set when the key is present and are unchanged when it is absent |
| `NewsController.UpdateIsIdempotent` | backend/app/Http/Controllers/NewsController.php:55-73 | repeating a successful update changes nothing further |
| `NewsController.SyncIsIdempotent` | backend/app/Http/Controllers/NewsController.php:68-70 | syncing the same tag set twice gives the same pivot rows as syncing it once |
| `NewsController.CourseOwnerCannotEditOthersPost` | backend/app/Http/Controllers/NewsController.php:57 | the owner of a post's course who is not its author is refused with 403 |
| `NewsController.Destroy` | backend/app/Http/Controllers/NewsController.php:76-81 | an unknown post is 404; only the author may delete; the post and its tag rows go, and everything else stays |
| `NewsController.StoreThenDestroyRestores` | backend/app/Http/Controllers/NewsController.php:76-81 | deleting a post just stored by its author restores the whole state, tag rows included, except that the id counter has moved on |
| `NewsController.DestroyUndoesInsert` | backend/app/Http/Controllers/NewsController.php:76-81 | deleting a post inserted under an unused id, with tag rows that all name it, gives back the state before the insert |
| `NewsController.WritesKeepAllocated` | backend/app/Http/Controllers/NewsController.php:21-81 | store, update and destroy keep the allocation invariant |
| `NewsController.IndexForUser` | backend/app/Http/Controllers/NewsController.php:83-110 | the feed holds exactly the posts whose course the user teaches (professor) or joined (anyone else, joined through the courses table), each labelled with its course title or the "Unknown Course" fallback |
| `NewsController.FeedShowsCourseTitles` | backend/app/Http/Controllers/NewsController.php:88-104 | whatever the role, every feed entry's course row exists and the entry is labelled with that course's title, so the "Unknown Course" fallback never shows |
| `NewsController.AnyProfessorMayPostAnywhere` | backend/app/Http/Controllers/NewsController.php:33 | a professor may post to a course they do not own |

## Findings

| source | as written | input that shows it | evidently intended | confidence | as-written member | corrected member |
|---|---|---|---|---|---|---|
| backend/app/Http/Controllers/CourseController.php:82 | `store` creates the course through `$request->user()->courses()`. That relation is the course_user membership pivot, so user_id stays null and the creator is enrolled as a member. | Any professor calling store with a valid title and description. It always succeeds for them (`CourseController.StoreAsWrittenAlwaysReached`). The creator then fails `update`, so `changePin` is refused, and the course is missing from their "my courses" list. | The course is created through `taughtCourses()`, so its user_id is the creator and no pivot row is added. | not executed; medium. If the courses table's user_id column is not nullable, the insert fails instead. That schema is not part of this model. | `CourseController.StoreAsWritten` (shown by `CourseController.StoreAsWrittenLosesOwnership`) | `CourseController.Store` (proved by `CourseController.StoreMakesCreatorOwner`) |

## Left out

- Floating point: doubles, `pow` and `sqrt` are replaced by exact reals and the squared threshold. Rounding near the 0.6 boundary is not modelled.
- `Biometric.SquaredDistance`: states only that equal vectors are at distance zero, not the converse. Neither the matcher nor its callers depend on the converse.
- JSON encoding and decoding of templates: a stored template is `Option<seq<real>>`. An undecodable stored value is falsy at AuthController.php:93, exactly like an empty one, so it is covered by the empty case.
- The types of embedding elements: the `array` rule does not check them. The model's probe is a vector of reals.
- Token creation (Sanctum), `logout`, `Hash::make` / `Hash::check` and the email-format validator are library calls. Hashing and the email check are parameters; tokens are not modelled.
- `AuthController.Register`: the trimming middleware is not modelled. Laravel's global middleware trims every string except passwords and turns an empty string into null; the `required` rule itself rejects a blank value of any field, passwords included, and the model does the same. A non-blank name or email with surrounding blanks is stored as sent in the model, trimmed in the source.
- `AuthController.Login`: the trimming middleware is not modelled. An email sent with surrounding blanks is trimmed by the middleware and can log in; the model answers 422, by the format rule or as an unknown email. A blank email or password is 422 in both.
- `EnrollmentController.EnrollWithPin`: the trimming middleware is not modelled for non-blank PINs; a blank PIN is 422 in both. A PIN sent with surrounding blanks (" AB12CD") fails the length rule with 422 in the model, while the source trims it to 6 characters and looks it up.
- `CourseController.StoreChecks`, `CourseController.Update`, `NewsController.Store`, `NewsController.Update`: the trimming middleware is not modelled. A blank title, description or content is 422 in both; a non-blank one with surrounding blanks is stored and length-checked as sent in the model, trimmed in the source.
- `EnrollmentController.FirstWithPin`: string comparison in the database is modelled as exact equality. With a case-insensitive collation, `where('pin_code', ...)` could match more PINs; the database schema is not part of this model.
- `AuthController.FindByEmail`, `AuthController.Register`: same collation caveat. `where('email', ...)` and the `unique:users` rule are modelled as exact equality, so emails that differ only in letter case count as different users.
- Whether `$this->authorize` exists in `changePin` depends on the base Controller class, which is not part of this model. The model uses the evident meaning: 403 unless the update ability holds.
- Cascading deletes of a course's pivot rows, news and materials: these depend on migrations that are not part of this model, so `CourseController.Destroy` deletes only the course row. Pivot rows and posts it leaves behind stay invisible, because the membership relations join the courses and users tables (`CourseController.DestroyHidesCourseNews`), and no later course inherits them, because course ids are never reused (`CourseController.StoredCourseStartsEmpty`). The news_tag cascade is modelled in `NewsController.Destroy`.
- `NewsController.Store`: a tag list that names one tag twice makes `attach` insert a duplicate primary key, and that database error is not modelled. The model's pivot is a set.
- Ordering by `latest()`, eager loading, and the selected column lists: listings keep storage order and whole rows.
- `CourseController::index`, `CourseController::show`, `NewsController::index` and `NewsController::show`: these are reads behind abilities that always allow (`CoursePolicy.OpenAbilities`, `NewsPolicy.OpenAbilities`).
- `MaterialController` file storage, upload validation and download streaming are I/O. Only its authorization decisions are modelled, in `MaterialPolicy.ControllerChecksAgree`.
- Routes, seeders, the service provider and the whole frontend (camera capture, face-api, local storage) are transport and UI.
