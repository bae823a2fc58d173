/** Registration and login. Registration checks its fields in a fixed order,
    stores the user with a hashed password and, for an instructor, creates
    the course they teach; both handlers answer with a token whose payload is
    the user's id and role. */
module AuthController {
  import opened Common
  import opened Security
  import opened Models
  import opened Roles
  import opened Store

  /** The `user` object of a response: never the password. */
  datatype UserView = UserView(id: Id, name: string, email: string, role: string)

  function ViewOf(u: User): UserView {
    UserView(u.id, u.name, u.email, RoleName(u.role))
  }

  function TokenFor(u: User): Token {
    Sign(TokenPayload(u.id, RoleName(u.role)))
  }

  /** The body of `register`: `course` is null unless an instructor's course
      was created. */
  datatype Registration = Registration(token: Token, user: UserView, course: Option<Course>)

  /** The body of `login`. */
  datatype Session = Session(token: Token, user: UserView)

  predicate MissingAny(name: Option<string>, email: Option<string>, password: Option<string>, role: Option<string>) {
    !Truthy(name) || !Truthy(email) || !Truthy(password) || !Truthy(role)
  }

  /** `register`. An instructor without course fields is refused only after
      the user has been stored, so that user stays. */
  method Register(users: UserCollection, courses: CourseCollection,
                  name: Option<string>, email: Option<string>, password: Option<string>, role: Option<string>,
                  courseTitle: Option<string>, courseDescription: Option<string>)
    returns (r: Response<Registration>)
    requires users.Valid() && courses.Valid()
    modifies users, courses
    ensures users.Valid() && courses.Valid()
    ensures MissingAny(name, email, password, role) ==>
      r == Reject(400, "Missing fields") && users.docs == old(users.docs) && courses.docs == old(courses.docs)
    ensures !MissingAny(name, email, password, role) && ParseRole(role.value).None? ==>
      r == Reject(400, "Invalid role") && users.docs == old(users.docs) && courses.docs == old(courses.docs)
    ensures !MissingAny(name, email, password, role) && ParseRole(role.value).Some?
            && FindUserByEmail(old(users.docs), Lower(email.value)).Some? ==>
      r == Reject(400, "Email already in use") && users.docs == old(users.docs) && courses.docs == old(courses.docs)
    ensures !MissingAny(name, email, password, role) && ParseRole(role.value).Some?
            && FindUserByEmail(old(users.docs), Lower(email.value)).None? ==>
      var u := User(old(users.nextId), name.value, Lower(email.value), Hash(password.value), ParseRole(role.value).value);
      && users.docs == old(users.docs) + [u]
      && (if u.role == Student then
            r == Success(201, Registration(TokenFor(u), ViewOf(u), None)) && courses.docs == old(courses.docs)
          else if !Truthy(courseTitle) || !Truthy(courseDescription) then
            r == Reject(400, "Course title and description required") && courses.docs == old(courses.docs)
          else
            var c := Course(old(courses.nextId), courseTitle.value, courseDescription, Some(u.id));
            r == Success(201, Registration(TokenFor(u), ViewOf(u), Some(c))) && courses.docs == old(courses.docs) + [c])
  {
    if MissingAny(name, email, password, role) {
      return Reject(400, "Missing fields");
    }
    var parsed := ParseRole(role.value);
    if parsed.None? {
      return Reject(400, "Invalid role");
    }
    var existing := FindUserByEmail(users.docs, Lower(email.value));
    if existing.Some? {
      return Reject(400, "Email already in use");
    }
    var hashed := Hash(password.value);
    var user := users.Create(name.value, email.value, hashed, parsed.value);

    var createdCourse: Option<Course> := None;
    if parsed.value == Instructor {
      if !Truthy(courseTitle) || !Truthy(courseDescription) {
        return Reject(400, "Course title and description required");
      }
      var course := courses.Create(courseTitle.value, courseDescription, Some(user.id));
      createdCourse := Some(course);
    }
    var token := Sign(TokenPayload(user.id, RoleName(user.role)));
    r := Success(201, Registration(token, UserView(user.id, user.name, user.email, RoleName(user.role)), createdCourse));
  }

  /** `login`. An unknown email and a wrong password get the same answer. */
  function Login(users: seq<User>, email: Option<string>, password: Option<string>): (r: Response<Session>)
    ensures !Truthy(email) || !Truthy(password) ==> r == Reject(400, "Missing fields")
    ensures Truthy(email) && Truthy(password) && r.Reject? ==> r == Reject(400, "Invalid credentials")
    ensures r.Success? ==> && Truthy(email) && Truthy(password) && r.status == 200
                           && exists u :: && u in users && u.email == Lower(email.value)
                                          && u.password == Hash(password.value)
                                          && r.body == Session(TokenFor(u), ViewOf(u))
    ensures !r.Forwarded?
  {
    if !Truthy(email) || !Truthy(password) then Reject(400, "Missing fields")
    else match FindUserByEmail(users, Lower(email.value))
      case None => Reject(400, "Invalid credentials")
      case Some(u) =>
        if !Compare(password.value, u.password) then Reject(400, "Invalid credentials")
        else Success(200, Session(TokenFor(u), ViewOf(u)))
  }

  /** With emails unique, login succeeds exactly for the email and password a
      stored user was registered with. */
  lemma LoginSucceedsIffCredentialsMatch(users: seq<User>, email: string, password: string)
    requires UniqueEmails(users) && email != "" && password != ""
    ensures Login(users, Some(email), Some(password)).Success?
        <==> exists u :: u in users && u.email == Lower(email) && u.password == Hash(password)
  {
    if u :| u in users && u.email == Lower(email) && u.password == Hash(password) {
      var found := FindUserByEmail(users, Lower(email)).value;
      var i :| 0 <= i < |users| && users[i] == u;
      var j :| 0 <= j < |users| && users[j] == found;
      if i < j {
        assert users[i].email != users[j].email;
      } else if j < i {
        assert users[j].email != users[i].email;
      }
    }
  }

  /** A user just registered can log in with the same email (in any letter
      case) and password, and gets a token naming that user and role. */
  lemma RegisteredUserCanLogIn(users: seq<User>, u: User, email: string, password: string)
    requires email != "" && password != ""
    requires FindUserByEmail(users, Lower(email)).None?
    requires u.email == Lower(email) && u.password == Hash(password)
    ensures Login(users + [u], Some(email), Some(password)) == Success(200, Session(TokenFor(u), ViewOf(u)))
  {
    FindUserByEmailAppend(users, u, Lower(email));
  }

  lemma {:induction false} FindUserByEmailAppend(users: seq<User>, u: User, email: string)
    requires FindUserByEmail(users, email).None? && u.email == email
    ensures FindUserByEmail(users + [u], email) == Some(u)
    decreases |users|
  {
    if users != [] {
      assert (users + [u])[1..] == users[1..] + [u];
      FindUserByEmailAppend(users[1..], u, email);
    }
  }

  /** The token a user receives, once verified by the authentication
      middleware, passes exactly the role guard of that user's role. */
  lemma TokenPassesOwnRoleGuard(u: User, role: Role)
    ensures var payload := Verify(TokenFor(u)).value;
      Permit(RoleName(role), Some(AuthUser(payload.id, payload.role))) == Continue <==> role == u.role
  {
  }
}
