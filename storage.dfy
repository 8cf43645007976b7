/**
 * The local user and session store. Browser storage holds two slots: the list of
 * registered users under `auth_app_users` and the logged-in user under
 * `auth_app_current_user`, each as JSON. Reads fail open: a slot that is missing,
 * empty or unparseable reads as no users / no session.
 */
module Storage {
  import opened Wrappers
  import opened Text

  /** A registered user, as persisted. The password is kept in plain text. */
  datatype User = User(id: string, name: string, email: string, password: string, createdAt: string)

  /** What the registration form hands to the store: a user without id and creation time. */
  datatype NewUser = NewUser(name: string, email: string, password: string)

  /**
   * The content of one storage slot, after JSON decoding: the key is not set, it holds
   * the empty string, it holds text JSON cannot parse, or it decodes to a value.
   */
  datatype Slot<T> = Missing | Blank | Unparseable | Holds(value: T)

  const EmailAlreadyRegistered := "This email is already registered"

  /** The fail-open read of a slot: only a decoded value is seen. */
  function Read<T>(slot: Slot<T>): (r: Option<T>)
    ensures r.Some? <==> slot.Holds?
    ensures r.Some? ==> slot == Holds(r.value)
  {
    match slot
    case Holds(v) => Some(v)
    case _ => None
  }

  /** Email comparison of the store: equal after lower-casing. */
  predicate SameEmail(a: string, b: string) {
    ToLower(a) == ToLower(b)
  }

  /** `users.some(u => u.email.toLowerCase() === email.toLowerCase())` */
  predicate EmailTaken(users: seq<User>, email: string) {
    exists k :: 0 <= k < |users| && SameEmail(users[k].email, email)
  }

  /** The login match: the email up to case, the password exactly. */
  predicate Matches(u: User, email: string, password: string) {
    SameEmail(u.email, email) && u.password == password
  }

  /** No two stored users share an email up to case. */
  ghost predicate DistinctEmails(users: seq<User>) {
    forall a, b :: 0 <= a < b < |users| ==> !SameEmail(users[a].email, users[b].email)
  }

  /**
   * `users.find(...)` for the login match: the index of the first matching user in
   * insertion order, or |users| when there is none.
   */
  function FirstMatch(users: seq<User>, email: string, password: string): (k: nat)
    ensures k <= |users|
    ensures k < |users| ==> Matches(users[k], email, password)
    ensures forall j :: 0 <= j < k ==> !Matches(users[j], email, password)
  {
    if users == [] then 0
    else if Matches(users[0], email, password) then 0
    else 1 + FirstMatch(users[1..], email, password)
  }

  /** With distinct emails the login match is unique: any matching user is the one found. */
  lemma MatchIsUnique(users: seq<User>, email: string, password: string, j: nat)
    requires DistinctEmails(users)
    requires j < |users| && Matches(users[j], email, password)
    ensures FirstMatch(users, email, password) == j
  {}

  /** Appending a user whose email is not taken keeps the emails distinct. */
  lemma AppendKeepsEmailsDistinct(users: seq<User>, u: User)
    requires DistinctEmails(users)
    requires !EmailTaken(users, u.email)
    ensures DistinctEmails(users + [u])
  {}

  /** The store over the two storage slots. */
  class UserStore {
    /** The `auth_app_users` slot. */
    var usersSlot: Slot<seq<User>>
    /** The `auth_app_current_user` slot. */
    var sessionSlot: Slot<User>

    /** A store over whatever the two slots already hold. */
    constructor (users: Slot<seq<User>>, session: Slot<User>)
      ensures usersSlot == users && sessionSlot == session
    {
      usersSlot := users;
      sessionSlot := session;
    }

    /** getUsers: the stored list, or no users when the slot is missing, empty or corrupt. */
    function GetUsers(): (r: seq<User>)
      reads this
      ensures usersSlot.Holds? ==> r == usersSlot.value
      ensures !usersSlot.Holds? ==> r == []
    {
      Read(usersSlot).GetOr([])
    }

    /** getCurrentUser: the session user, or none when the slot is missing, empty or corrupt. */
    function GetCurrentUser(): (r: Option<User>)
      reads this
      ensures r.Some? <==> sessionSlot.Holds?
      ensures r.Some? ==> r.value == sessionSlot.value
    {
      Read(sessionSlot)
    }

    /** isLoggedIn: whether getCurrentUser finds a user. */
    function IsLoggedIn(): (b: bool)
      reads this
      ensures b <==> GetCurrentUser() != None
    {
      sessionSlot.Holds?
    }

    /**
     * saveUser. An email already stored, up to case, is refused and nothing is written.
     * Otherwise the user, with the supplied id and creation time, is appended to the
     * list as read and the whole list is written back; the session is never touched.
     */
    method SaveUser(user: NewUser, id: string, createdAt: string) returns (r: Result<User, string>)
      modifies this`usersSlot
      ensures sessionSlot == old(sessionSlot)
      ensures EmailTaken(old(GetUsers()), user.email) ==>
                r == Failure(EmailAlreadyRegistered) && usersSlot == old(usersSlot)
      ensures !EmailTaken(old(GetUsers()), user.email) ==>
                && r == Success(User(id, user.name, user.email, user.password, createdAt))
                && usersSlot == Holds(old(GetUsers()) + [r.value])
      ensures old(GetUsers()) <= GetUsers()
      ensures r.Success? ==> |GetUsers()| == |old(GetUsers())| + 1 && GetUsers()[|old(GetUsers())|] == r.value
      ensures DistinctEmails(old(GetUsers())) ==> DistinctEmails(GetUsers())
    {
      var users := GetUsers();
      if EmailTaken(users, user.email) {
        return Failure(EmailAlreadyRegistered);
      }
      var created := User(id, user.name, user.email, user.password, createdAt);
      if DistinctEmails(users) {
        AppendKeepsEmailsDistinct(users, created);
      }
      users := users + [created];
      usersSlot := Holds(users);
      r := Success(created);
    }

    /** setCurrentUser: the session slot now holds the user. */
    method SetCurrentUser(user: User)
      modifies this`sessionSlot
      ensures sessionSlot == Holds(user) && usersSlot == old(usersSlot)
      ensures GetCurrentUser() == Some(user)
    {
      sessionSlot := Holds(user);
    }

    /**
     * loginUser: the first stored user, in insertion order, whose email matches up to
     * case and whose password is identical becomes the session user and is returned.
     * Without such a user the result is none and the session is left as it was. The
     * user list is never written.
     */
    method LoginUser(email: string, password: string) returns (r: Option<User>)
      modifies this`sessionSlot
      ensures usersSlot == old(usersSlot)
      ensures var users := GetUsers(); var k := FirstMatch(users, email, password);
              && (k < |users| ==> r == Some(users[k]) && sessionSlot == Holds(users[k]))
              && (k == |users| ==> r == None && sessionSlot == old(sessionSlot))
      ensures r.None? <==> forall u :: u in GetUsers() ==> !Matches(u, email, password)
      ensures r.Some? ==> IsLoggedIn() && GetCurrentUser() == r
    {
      var users := GetUsers();
      var k := FirstMatch(users, email, password);
      if k < |users| {
        SetCurrentUser(users[k]);
        r := Some(users[k]);
      } else {
        r := None;
      }
    }

    /** logoutUser: the session slot is removed, whatever it held. */
    method LogoutUser()
      modifies this`sessionSlot
      ensures sessionSlot == Missing && usersSlot == old(usersSlot)
      ensures !IsLoggedIn() && GetCurrentUser() == None
    {
      sessionSlot := Missing;
    }
  }
}
