/**
 AuthController: registration, password login, face registration and
 biometric login.

 Hashing (Hash::make / Hash::check) and the email-format rule are opaque
 library calls; they enter the model as function parameters. Token
 creation is left out: a successful login answers with the user the token
 would be issued for.
 */
module AuthController {
  import opened Common
  import opened Models
  import opened Biometric

  const FaceNotRecognized: string := "Authentication failed. Face not recognized."
  const BadCredentials: string := "The provided credentials do not match our records."

  /** Shortest accepted password (the min:8 rule). */
  const MinPasswordLength: nat := 8

  /** The fields of a registration request. */
  datatype Registration = Registration(
    name: string,
    email: string,
    password: string,
    passwordConfirmation: string,
    role: string)

  predicate EmailTaken(users: seq<User>, email: string) {
    exists u :: u in users && u.email == email
  }

  /** No two users share an email (what unique:users maintains). */
  predicate UniqueEmails(users: seq<User>) {
    forall i, j :: 0 <= i < |users| && 0 <= j < |users| && i != j ==> users[i].email != users[j].email
  }

  /** First user with the given email (User::where('email', ...)->first()). */
  function FindByEmail(users: seq<User>, email: string): (r: Option<User>)
    ensures r.Some? ==> r.value in users && r.value.email == email
    ensures r.None? <==> !EmailTaken(users, email)
  {
    if |users| == 0 then None
    else if users[0].email == email then Some(users[0])
    else FindByEmail(users[1..], email)
  }

  /** The validation rules of register. */
  predicate ValidRegistration(users: seq<User>, req: Registration, isEmail: string -> bool) {
    && Required(req.name) && |req.name| <= MaxStringLength
    && Required(req.email) && |req.email| <= MaxStringLength && isEmail(req.email) && !EmailTaken(users, req.email)
    && Required(req.password) && |req.password| >= MinPasswordLength && req.password == req.passwordConfirmation
    && (req.role == StudentRole || req.role == ProfessorRole)
  }

  /** register: every validation rule must hold, else 422; on success a user
      without a face template is appended under a fresh id. */
  function Register(users: seq<User>, req: Registration, isEmail: string -> bool, hash: string -> string)
    : (r: Reply<seq<User>>)
    ensures r.Ok? <==> ValidRegistration(users, req, isEmail)
    ensures r.Fail? ==> r.status == Unprocessable
    ensures !Required(req.name) || |req.name| > MaxStringLength ==> r.Fail?
    ensures !Required(req.email) || !isEmail(req.email) || |req.email| > MaxStringLength || EmailTaken(users, req.email) ==> r.Fail?
    ensures !Required(req.password) || |req.password| < MinPasswordLength || req.password != req.passwordConfirmation ==> r.Fail?
    ensures req.role != StudentRole && req.role != ProfessorRole ==> r.Fail?
    ensures r.Ok? ==>
      && |r.value| == |users| + 1
      && r.value[..|users|] == users
      && var u := r.value[|users|];
         && u.role == req.role
         && u.name == req.name && u.email == req.email
         && u.passwordHash == hash(req.password)
         && u.template == None
         && forall v :: v in users ==> v.id != u.id
  {
    if !Required(req.name) || |req.name| > MaxStringLength then Fail(Unprocessable, "name")
    else if !Required(req.email) || !isEmail(req.email) || |req.email| > MaxStringLength || EmailTaken(users, req.email)
    then Fail(Unprocessable, "email")
    else if !Required(req.password) || |req.password| < MinPasswordLength || req.password != req.passwordConfirmation
    then Fail(Unprocessable, "password")
    else if req.role != StudentRole && req.role != ProfessorRole then Fail(Unprocessable, "role")
    else
      var u := User(FreshUserId(users), req.name, req.email, hash(req.password), req.role, None);
      assert (users + [u])[..|users|] == users;
      Ok(users + [u])
  }

  /** Registration keeps emails unique. */
  lemma RegisterKeepsEmailsUnique(users: seq<User>, req: Registration, isEmail: string -> bool, hash: string -> string)
    requires UniqueEmails(users)
    requires Register(users, req, isEmail, hash).Ok?
    ensures UniqueEmails(Register(users, req, isEmail, hash).value)
  {
    var after := Register(users, req, isEmail, hash).value;
    var u := after[|users|];
    forall i, j | 0 <= i < |after| && 0 <= j < |after| && i != j
      ensures after[i].email != after[j].email
    {
      if i < |users| && j < |users| {
        assert after[i] == users[i] && after[j] == users[j];
      } else if i < |users| {
        assert after[i] == users[i] && users[i] in users;
      } else {
        assert after[j] == users[j] && users[j] in users;
      }
    }
  }

  /** login: a malformed request is a 422 validation failure; an unknown
      email and a wrong password give the very same rejection. */
  function Login(users: seq<User>, email: string, password: string,
                 isEmail: string -> bool, check: (string, string) -> bool): (r: Reply<User>)
    ensures r.Ok? ==> r.value in users && r.value.email == email && check(password, r.value.passwordHash)
    ensures r.Ok? ==> r.value == FindByEmail(users, email).value
    ensures r.Fail? ==> r.status == Unprocessable
    ensures Required(email) && isEmail(email) && Required(password) && !EmailTaken(users, email) ==>
      r == Fail(Unprocessable, BadCredentials)
    ensures Required(email) && isEmail(email) && Required(password) && EmailTaken(users, email) ==>
      (r.Ok? <==> check(password, FindByEmail(users, email).value.passwordHash))
  {
    if !Required(email) || !isEmail(email) then Fail(Unprocessable, "email")
    else if !Required(password) then Fail(Unprocessable, "password")
    else
      match FindByEmail(users, email)
      case None => Fail(Unprocessable, BadCredentials)
      case Some(u) =>
        if !check(password, u.passwordHash) then Fail(Unprocessable, BadCredentials) else Ok(u)
  }

  /** The rejection does not reveal whether the email exists: an unknown
      email and a known email with a wrong password answer identically. */
  lemma LoginRejectionIsUniform(users: seq<User>, known: string, unknown: string, password: string,
                                isEmail: string -> bool, check: (string, string) -> bool)
    requires Required(known) && isEmail(known) && Required(unknown) && isEmail(unknown) && Required(password)
    requires !EmailTaken(users, unknown)
    requires EmailTaken(users, known) && !check(password, FindByEmail(users, known).value.passwordHash)
    ensures Login(users, unknown, password, isEmail, check) == Login(users, known, password, isEmail, check)
  {
  }

  /** A user who registers can then log in with the same email and
      password, provided the hash check accepts what the hash produced. */
  lemma {:induction false} RegisterThenLogin(users: seq<User>, req: Registration,
                                             isEmail: string -> bool, hash: string -> string,
                                             check: (string, string) -> bool)
    requires forall p :: check(p, hash(p))
    requires Register(users, req, isEmail, hash).Ok?
    ensures Login(Register(users, req, isEmail, hash).value, req.email, req.password, isEmail, check)
            == Ok(Register(users, req, isEmail, hash).value[|users|])
  {
    var after := Register(users, req, isEmail, hash).value;
    var u := after[|users|];
    FirstWithEmailIsLast(users, u);
    assert after == users + [u];
  }

  /** Looking an email up after appending a user whose email nobody had
      finds that user. */
  lemma {:induction false} FirstWithEmailIsLast(users: seq<User>, u: User)
    requires !EmailTaken(users, u.email)
    ensures FindByEmail(users + [u], u.email) == Some(u)
  {
    if |users| == 0 {
      assert (users + [u])[0] == u;
    } else {
      assert users[0] in users;
      assert (users + [u])[1..] == users[1..] + [u];
      assert !EmailTaken(users[1..], u.email) by {
        forall v | v in users[1..] ensures v.email != u.email {
          assert v in users;
        }
      }
      FirstWithEmailIsLast(users[1..], u);
    }
  }

  /** The request field face_embedding passes 'required|array': present and
      non-empty. */
  predicate ValidEmbedding(embedding: Option<seq<real>>) {
    embedding.Some? && |embedding.value| > 0
  }

  /** registerFace: overwrites the caller's template with the submitted
      vector; every other user is left as it was. */
  function RegisterFace(users: seq<User>, callerId: UserId, embedding: Option<seq<real>>)
    : (r: Reply<seq<User>>)
    requires FindUser(users, callerId).Some?
    ensures r.Fail? <==> !ValidEmbedding(embedding)
    ensures r.Fail? ==> r.status == Unprocessable
    ensures r.Ok? ==> |r.value| == |users|
    ensures r.Ok? ==> forall i :: 0 <= i < |users| && users[i].id != callerId ==> r.value[i] == users[i]
    ensures r.Ok? ==> forall i :: 0 <= i < |users| && users[i].id == callerId ==>
      r.value[i] == users[i].(template := embedding)
  {
    if !ValidEmbedding(embedding) then Fail(Unprocessable, "face_embedding")
    else
      Ok(seq(|users|, i requires 0 <= i < |users| =>
        if users[i].id == callerId then users[i].(template := embedding) else users[i]))
  }

  /** Enrolment round trip: after registering vector v the caller's stored
      template is exactly v. */
  lemma {:induction false} RegisterFaceRoundTrip(users: seq<User>, callerId: UserId, v: seq<real>)
    requires FindUser(users, callerId).Some? && |v| > 0
    ensures FindUser(RegisterFace(users, callerId, Some(v)).value, callerId).Some?
    ensures FindUser(RegisterFace(users, callerId, Some(v)).value, callerId).value.template == Some(v)
  {
    var after := RegisterFace(users, callerId, Some(v)).value;
    var k :| 0 <= k < |users| && users[k].id == callerId && forall j :: 0 <= j < k ==> users[j].id != callerId
      by { FindUserPosition(users, callerId); }
    FindUserAt(after, callerId, k);
  }

  /** The user FindUser returns sits at the first position with that id. */
  lemma {:induction false} FindUserPosition(users: seq<User>, id: UserId)
    requires FindUser(users, id).Some?
    ensures exists k :: 0 <= k < |users| && users[k].id == id && FindUser(users, id) == Some(users[k])
                        && forall j :: 0 <= j < k ==> users[j].id != id
  {
    if users[0].id != id {
      FindUserPosition(users[1..], id);
      var k :| 0 <= k < |users[1..]| && users[1..][k].id == id && FindUser(users[1..], id) == Some(users[1..][k])
               && forall j :: 0 <= j < k ==> users[1..][j].id != id;
      assert users[k + 1] == users[1..][k];
      assert forall j :: 1 <= j < k + 1 ==> users[j] == users[1..][j - 1];
    }
  }

  /** FindUser returns the user at the first position carrying the id. */
  lemma {:induction false} FindUserAt(users: seq<User>, id: UserId, k: nat)
    requires k < |users| && users[k].id == id
    requires forall j :: 0 <= j < k ==> users[j].id != id
    ensures FindUser(users, id) == Some(users[k])
  {
    if k > 0 {
      FindUserAt(users[1..], id, k - 1);
    }
  }

  /** Re-enrolment keeps only the last vector: registering v1 and then v2
      gives the same users as registering v2 alone. */
  lemma RegisterFaceLastWriteWins(users: seq<User>, callerId: UserId, v1: seq<real>, v2: seq<real>)
    requires FindUser(users, callerId).Some? && |v1| > 0 && |v2| > 0
    ensures FindUser(RegisterFace(users, callerId, Some(v1)).value, callerId).Some?
    ensures RegisterFace(RegisterFace(users, callerId, Some(v1)).value, callerId, Some(v2))
            == RegisterFace(users, callerId, Some(v2))
  {
    RegisterFaceRoundTrip(users, callerId, v1);
    var once := RegisterFace(users, callerId, Some(v1)).value;
    var twice := RegisterFace(once, callerId, Some(v2)).value;
    var direct := RegisterFace(users, callerId, Some(v2)).value;
    assert forall i :: 0 <= i < |users| ==> once[i].id == users[i].id;
    assert twice == direct;
  }

  /** loginBiometric: validates the probe, scans the users with a template
      in storage order, and logs in the FIRST one within the threshold;
      nobody within the threshold (or nobody enrolled) is a 401. */
  function LoginBiometric(users: seq<User>, probe: Option<seq<real>>): (r: Reply<User>)
    ensures !ValidEmbedding(probe) ==> r.Fail? && r.status == Unprocessable
    ensures ValidEmbedding(probe) && FirstMatch(users, probe.value).None? ==>
      r == Fail(Unauthorized, FaceNotRecognized)
    ensures ValidEmbedding(probe) && FirstMatch(users, probe.value).Some? ==>
      r == Ok(users[FirstMatch(users, probe.value).value])
    ensures r.Ok? ==> r.value.template.Some? && Accepts(r.value, probe.value)
  {
    if !ValidEmbedding(probe) then Fail(Unprocessable, "face_embedding")
    else
      var enrolled := Enrolled(users);
      EnrolledScanAgrees(users, probe.value);
      match FirstMatch(enrolled, probe.value)
      case None => Fail(Unauthorized, FaceNotRecognized)
      case Some(i) => Ok(enrolled[i])
  }

  /** With nobody enrolled every probe is rejected with 401. */
  lemma NoEnrolledUsersRejects(users: seq<User>, probe: seq<real>)
    requires forall u :: u in users ==> u.template.None?
    requires |probe| > 0
    ensures LoginBiometric(users, Some(probe)) == Fail(Unauthorized, FaceNotRecognized)
  {
    assert forall j :: 0 <= j < |users| ==> users[j] in users;
  }

  /** A user whose template is longer or shorter than the probe is never
      the one logged in, and its presence causes no error. */
  lemma MismatchedLengthNeverMatches(users: seq<User>, probe: seq<real>, i: nat)
    requires i < |users| && users[i].template.Some? && |users[i].template.value| != |probe|
    requires |probe| > 0
    ensures LoginBiometric(users, Some(probe)).Ok? ==> LoginBiometric(users, Some(probe)).value != users[i]
    ensures LoginBiometric(users, Some(probe)).Fail? ==>
      LoginBiometric(users, Some(probe)) == Fail(Unauthorized, FaceNotRecognized)
  {
  }

  /** After registering vector v, logging in with v itself succeeds, as the
      caller unless an earlier user in scan order already matches v. */
  lemma {:induction false} LoginAfterRegisterFace(users: seq<User>, k: nat, v: seq<real>)
    requires k < |users| && |v| > 0
    requires forall j :: 0 <= j < |users| && j != k ==> users[j].id != users[k].id
    ensures FindUser(users, users[k].id).Some?
    ensures
      var after := RegisterFace(users, users[k].id, Some(v)).value;
      && LoginBiometric(after, Some(v)).Ok?
      && ((forall j :: 0 <= j < k ==> !Accepts(users[j], v)) ==>
            LoginBiometric(after, Some(v)) == Ok(users[k].(template := Some(v))))
  {
    FindUserAt(users, users[k].id, k);
    var after := RegisterFace(users, users[k].id, Some(v)).value;
    assert after[k] == users[k].(template := Some(v));
    assert forall j :: 0 <= j < k ==> after[j] == users[j];
    SelfMatch(after, k, v);
  }

  /** The end-to-end scenario: A = [0.1, 0.2, 0.3] and B = [0.9, 0.8, 0.7]
      are enrolled; the probe [0.11, 0.19, 0.29] logs in A, and the probe
      [5, 5, 5] is rejected. */
  lemma EndToEndScenario()
    ensures
      var a := User(1, "A", "a@example.com", "h", StudentRole, Some([0.1, 0.2, 0.3]));
      var b := User(2, "B", "b@example.com", "h", StudentRole, Some([0.9, 0.8, 0.7]));
      && LoginBiometric([a, b], Some([0.11, 0.19, 0.29])) == Ok(a)
      && LoginBiometric([a, b], Some([5.0, 5.0, 5.0])) == Fail(Unauthorized, FaceNotRecognized)
  {
    var a := User(1, "A", "a@example.com", "h", StudentRole, Some([0.1, 0.2, 0.3]));
    var b := User(2, "B", "b@example.com", "h", StudentRole, Some([0.9, 0.8, 0.7]));
    var near := [0.11, 0.19, 0.29];
    var far := [5.0, 5.0, 5.0];
    assert SquaredDistance([0.1, 0.2, 0.3], near) == 0.0003 by {
      Unfold3([0.1, 0.2, 0.3], near);
    }
    assert SquaredDistance([0.1, 0.2, 0.3], far) == 69.14 by {
      Unfold3([0.1, 0.2, 0.3], far);
    }
    assert SquaredDistance([0.9, 0.8, 0.7], far) == 52.94 by {
      Unfold3([0.9, 0.8, 0.7], far);
    }
    assert Accepts(a, near);
    assert !Accepts(a, far) && !Accepts(b, far);
    assert FirstMatch([a, b], far).None?;
  }

  /** The squared distance of two three-element vectors, written out. */
  lemma Unfold3(x: seq<real>, y: seq<real>)
    requires |x| == 3 && |y| == 3
    ensures SquaredDistance(x, y) ==
      (x[0] - y[0]) * (x[0] - y[0]) + (x[1] - y[1]) * (x[1] - y[1]) + (x[2] - y[2]) * (x[2] - y[2])
  {
    var x1, y1 := x[1..], y[1..];
    var x2, y2 := x1[1..], y1[1..];
    assert x1[0] == x[1] && y1[0] == y[1] && x2[0] == x[2] && y2[0] == y[2];
    assert x2[1..] == [] && y2[1..] == [];
    assert SquaredDistance(x2, y2) == (x[2] - y[2]) * (x[2] - y[2]) + SquaredDistance(x2[1..], y2[1..]);
    assert SquaredDistance(x1, y1) == (x[1] - y[1]) * (x[1] - y[1]) + SquaredDistance(x2, y2);
  }
}
