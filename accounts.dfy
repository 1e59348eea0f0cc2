// The account ledger (user_manager.py): creating users, looking them up,
// authentication and password change, advisor assignment with its capacity
// and date cutoff, and teacher capacities. The password primitive is not
// modelled: callers pass the credentials it derived and its verify function.

module Accounts {
  import opened Common
  import opened Text
  import opened Dates
  import opened Schema

  /** _next_user_id. */
  function NextUserId(users: seq<User>): (r: int)
    ensures users == [] ==> r == 1
    ensures forall k :: 0 <= k < |users| ==> users[k].id < r
    ensures users != [] ==> exists k :: 0 <= k < |users| && users[k].id == r - 1
  {
    NextId(users, UserId)
  }

  /** Position of the first user with the given id. */
  function UserIndex(users: seq<User>, id: int): (r: Option<nat>)
    ensures r.Some? ==> r.value < |users| && users[r.value].id == id
    ensures r.Some? ==> forall j :: 0 <= j < r.value ==> users[j].id != id
    ensures r.None? <==> !IsUser(users, id)
  {
    FindFirst(users, (u: User) => u.id == id)
  }

  /** get_user_by_id: the first user with that id, or none. */
  function GetUserById(users: seq<User>, id: int): (r: Option<User>)
    ensures r.Some? <==> IsUser(users, id)
    ensures r.Some? ==> r.value.id == id && r.value == users[UserIndex(users, id).value]
  {
    match UserIndex(users, id)
    case None => None
    case Some(k) => Some(users[k])
  }

  /** The form under which get_user_by_name compares names: stripped and case-normalised. */
  function NameKey(name: string): string
  {
    Lower(Trim(name))
  }

  /** get_user_by_name: the first user whose name matches, ignoring case and
      surrounding white space. */
  function GetUserByName(users: seq<User>, name: string): (r: Option<User>)
    ensures r.Some? ==> r.value in users && NameKey(r.value.name) == NameKey(name)
    ensures r.Some? ==>
              exists k :: 0 <= k < |users| && r.value == users[k] &&
                          forall j :: 0 <= j < k ==> NameKey(users[j].name) != NameKey(name)
    ensures r.None? <==> forall k :: 0 <= k < |users| ==> NameKey(users[k].name) != NameKey(name)
  {
    match FindFirst(users, (u: User) => NameKey(u.name) == NameKey(name))
    case None => None
    case Some(k) => Some(users[k])
  }

  function ParseRole(role: string): (r: Option<Role>)
    ensures r == Some(Student) <==> role == "student"
    ensures r == Some(Teacher) <==> role == "teacher"
    ensures r.None? <==> role != "student" && role != "teacher"
  {
    if role == "student" then Some(Student)
    else if role == "teacher" then Some(Teacher)
    else None
  }

  predicate NonNegative(c: Option<int>)
  {
    c.Some? ==> c.value >= 0
  }

  /** The checks of add_user that depend on its arguments alone. */
  predicate NewUserArgumentsValid(name: string, role: string, password: string, defenseDate: Option<string>,
                                  adviseeCapacity: Option<int>, juryCapacity: Option<int>)
  {
    && !IsBlank(name)
    && ParseRole(role).Some?
    && password != ""
    && (defenseDate.Some? ==> ParseDate(Trim(defenseDate.value)).Some?)
    && (role == "teacher" ==> NonNegative(adviseeCapacity) && NonNegative(juryCapacity))
  }

  /** The advisor exists, is a teacher, and has a free advisee slot. */
  predicate AdvisorHasRoom(users: seq<User>, advisor: int)
  {
    match GetUserById(users, advisor)
    case None => false
    case Some(t) => t.role == Teacher && AdviseeCount(users, advisor) < AdviseeCapacity(t)
  }

  /** The verdict of add_user's checks, in the order the source makes them:
      argument validation first, then the advisor's existence and role, then
      the advisor's free slots. */
  function NewUserCheck(users: seq<User>, name: string, role: string, password: string,
                        advisorId: Option<int>, defenseDate: Option<string>,
                        adviseeCapacity: Option<int>, juryCapacity: Option<int>): (r: Outcome)
    ensures !NewUserArgumentsValid(name, role, password, defenseDate, adviseeCapacity, juryCapacity) ==>
              r == Fail(Validation)
    ensures r.Pass? <==>
              NewUserArgumentsValid(name, role, password, defenseDate, adviseeCapacity, juryCapacity) &&
              (role == "student" && advisorId.Some? ==> AdvisorHasRoom(users, advisorId.value))
    ensures r == Fail(NotFound) <==>
              NewUserArgumentsValid(name, role, password, defenseDate, adviseeCapacity, juryCapacity) &&
              role == "student" && advisorId.Some? && !HasRole(GetUserById(users, advisorId.value), Teacher)
    ensures r == Fail(CapacityExceeded) <==>
              NewUserArgumentsValid(name, role, password, defenseDate, adviseeCapacity, juryCapacity) &&
              role == "student" && advisorId.Some? && HasRole(GetUserById(users, advisorId.value), Teacher) &&
              AdviseeCount(users, advisorId.value) >= AdviseeCapacity(GetUserById(users, advisorId.value).value)
  {
    if !NewUserArgumentsValid(name, role, password, defenseDate, adviseeCapacity, juryCapacity) then
      Fail(Validation)
    else if role == "student" && advisorId.Some? then
      match GetUserById(users, advisorId.value)
      case None => Fail(NotFound)
      case Some(t) =>
        if t.role != Teacher then Fail(NotFound)
        else if AdviseeCount(users, advisorId.value) >= AdviseeCapacity(t) then Fail(CapacityExceeded)
        else Pass
    else Pass
  }

  /** add_user: on any failed check nothing changes; otherwise one record is
      appended under the next id, with the stripped name, the canonical
      defense date, no login yet, active, and (for a teacher) the supplied or
      default capacities. */
  method AddUser(db: Store, name: string, role: string, password: string,
                 advisorId: Option<int>, defenseDate: Option<string>,
                 adviseeCapacity: Option<int>, juryCapacity: Option<int>,
                 credentials: Credentials, now: Time)
    returns (r: Result<int>)
    modifies db
    ensures db.files == old(db.files) && db.messages == old(db.messages) && db.defenses == old(db.defenses)
    ensures var c := NewUserCheck(old(db.users), name, role, password, advisorId, defenseDate, adviseeCapacity, juryCapacity);
            (r.Err? <==> c.Fail?) && (r.Err? ==> r.error == c.error && db.users == old(db.users))
    ensures r.Ok? ==>
              && r.value == NextUserId(old(db.users))
              && |db.users| == |old(db.users)| + 1
              && db.users[..|old(db.users)|] == old(db.users)
              && var u := db.users[|old(db.users)|];
                 && u.id == r.value
                 && u.name == Trim(name)
                 && Some(u.role) == ParseRole(role)
                 && u.advisorId == advisorId
                 && (defenseDate.None? ==> u.defenseDate.None?)
                 && (defenseDate.Some? ==> u.defenseDate == Some(Trim(defenseDate.value)))
                 && u.credentials == credentials
                 && u.createdAt == now && u.lastLogin.None? && u.isActive && u.advisorHistory == []
                 && (u.role == Teacher ==>
                       u.adviseeCapacity == Some(adviseeCapacity.GetOr(DefaultAdviseeCapacity)) &&
                       u.juryCapacity == Some(juryCapacity.GetOr(DefaultJuryCapacity)))
                 && (u.role == Student ==> u.adviseeCapacity.None? && u.juryCapacity.None?)
    ensures old(db.Valid()) ==> db.Valid()
    ensures old(db.Valid() && db.CapacitiesRespected()) ==> db.CapacitiesRespected()
  {
    var check := NewUserCheck(db.users, name, role, password, advisorId, defenseDate, adviseeCapacity, juryCapacity);
    if check.Fail? {
      return Err(check.error);
    }
    var parsedRole := ParseRole(role).value;
    var storedDate: Option<string> := None;
    if defenseDate.Some? {
      var parsed := ParseDate(Trim(defenseDate.value)).value;
      FormatParse(Trim(defenseDate.value));
      storedDate := Some(FormatDate(parsed));
    }
    var adviseeCap: Option<int> := None;
    var juryCap: Option<int> := None;
    if parsedRole == Teacher {
      adviseeCap := Some(adviseeCapacity.GetOr(DefaultAdviseeCapacity));
      juryCap := Some(juryCapacity.GetOr(DefaultJuryCapacity));
    }
    var newId := NextUserId(db.users);
    var u := User(newId, Trim(name), parsedRole, advisorId, storedDate, credentials,
                  now, None, true, [], adviseeCap, juryCap);
    AppendUser(db, u);
    r := Ok(newId);
  }

  /** The store update of add_user: the new account joins the end of the
      user collection and the document rules and capacity bounds survive. */
  method AppendUser(db: Store, u: User)
    requires u.id == NextUserId(db.users)
    requires u.role == Student && u.advisorId.Some? ==> AdvisorHasRoom(db.users, u.advisorId.value)
    requires u.role == Teacher ==> AdviseeCapacity(u) >= 0 && JuryCapacity(u) >= 0
    modifies db
    ensures db.users == old(db.users) + [u]
    ensures db.files == old(db.files) && db.messages == old(db.messages) && db.defenses == old(db.defenses)
    ensures old(db.Valid()) ==> db.Valid()
    ensures old(db.Valid() && db.CapacitiesRespected()) ==> db.CapacitiesRespected()
  {
    NewUserKeepsRules(db.users, db.files, db.messages, db.defenses, u);
    db.users := db.users + [u];
  }

  /** Appending a freshly allocated user keeps the document rules and, when
      add_user's checks passed, both capacity bounds. */
  lemma NewUserKeepsRules(users: seq<User>, files: seq<FileRecord>, messages: seq<Message>, defenses: seq<Defense>, u: User)
    requires u.id == NextUserId(users)
    requires u.role == Student && u.advisorId.Some? ==> AdvisorHasRoom(users, u.advisorId.value)
    requires u.role == Teacher ==> AdviseeCapacity(u) >= 0 && JuryCapacity(u) >= 0
    ensures DocumentValid(users, files, messages, defenses) ==> DocumentValid(users + [u], files, messages, defenses)
    ensures DocumentValid(users, files, messages, defenses) && AdviseeBound(users) && JuryBound(users, defenses) ==>
              AdviseeBound(users + [u]) && JuryBound(users + [u], defenses)
  {
    NewUserKeepsDocument(users, files, messages, defenses, u);
    if DocumentValid(users, files, messages, defenses) && AdviseeBound(users) && JuryBound(users, defenses) {
      NewUserKeepsAdviseeBound(users, u);
      NewUserKeepsJuryBound(users, defenses, u);
    }
  }

  lemma NewUserKeepsDocument(users: seq<User>, files: seq<FileRecord>, messages: seq<Message>, defenses: seq<Defense>,
                             u: User)
    requires u.id == NextUserId(users)
    requires u.role == Student && u.advisorId.Some? ==> AdvisorHasRoom(users, u.advisorId.value)
    ensures DocumentValid(users, files, messages, defenses) ==> DocumentValid(users + [u], files, messages, defenses)
  {
    if DocumentValid(users, files, messages, defenses) {
      var users' := users + [u];
      assert KeepsIdentities(users, users');
      DependentsSurvive(users, users', files, messages, defenses);
      forall t ensures IsTeacher(users, t) ==> IsTeacher(users', t) {
        ReferencesSurvive(users, users', t);
      }
      AllocatedIdKeepsDistinct(users, UserId, u);
    }
  }

  /** The new user advises nobody yet and, as a student, takes a free slot. */
  lemma NewUserKeepsAdviseeBound(users: seq<User>, u: User)
    requires u.id == NextUserId(users)
    requires u.role == Student && u.advisorId.Some? ==> AdvisorHasRoom(users, u.advisorId.value)
    requires u.role == Teacher ==> AdviseeCapacity(u) >= 0
    requires DistinctIds(users, UserId) && AdvisorsResolve(users) && AdviseeBound(users)
    ensures AdviseeBound(users + [u])
  {
    var users' := users + [u];
    forall k | 0 <= k < |users'| && users'[k].role == Teacher
      ensures AdviseeCount(users', users'[k].id) <= AdviseeCapacity(users'[k])
    {
      var t := users'[k].id;
      AdviseeCountAppend(users, u, t);
      if k < |users| {
        assert users'[k] == users[k];
        if Advises(u, t) {
          var w := UserIndex(users, t).value;
          FirstIdMatch(users, k, t);
          assert w == k;
        }
      } else {
        assert !IsUser(users, t);
        StrangerHasNoLoad(users, [], t);
      }
    }
  }

  /** The new user holds no jury seat, and nobody else's seats change. */
  lemma NewUserKeepsJuryBound(users: seq<User>, defenses: seq<Defense>, u: User)
    requires u.id == NextUserId(users)
    requires u.role == Teacher ==> JuryCapacity(u) >= 0
    requires AdvisorsResolve(users) && CommitteesResolve(users, defenses) && JuryBound(users, defenses)
    ensures JuryBound(users + [u], defenses)
  {
    var users' := users + [u];
    forall k | 0 <= k < |users'| && users'[k].role == Teacher
      ensures JuryCount(defenses, users'[k].id) <= JuryCapacity(users'[k])
    {
      if k < |users| {
        assert users'[k] == users[k];
      } else {
        assert !IsUser(users, u.id);
        StrangerHasNoLoad(users, defenses, u.id);
      }
    }
  }

  /** Which identifier authenticate_user received: an integer id or a name. */
  datatype Identifier = ById(id: int) | ByName(name: string)

  function Lookup(users: seq<User>, ident: Identifier): (r: Option<User>)
    ensures r.Some? ==> r.value in users
    ensures ident.ById? ==> r == GetUserById(users, ident.id)
    ensures ident.ByName? ==> r == GetUserByName(users, ident.name)
  {
    match ident
    case ById(i) => GetUserById(users, i)
    case ByName(n) => GetUserByName(users, n)
  }

  /** The conditions under which authenticate_user admits a found user. */
  predicate Admits(u: User, password: string, verify: (string, Credentials) -> bool)
  {
    u.isActive && u.credentials.salt != "" && u.credentials.hash != "" && verify(password, u.credentials)
  }

  /** Index of the first user with the given id, the loops' `for u in users: if u["id"] == id: ...; break`. */
  method ScanForId(users: seq<User>, id: int) returns (k: int)
    ensures -1 <= k < |users|
    ensures k == -1 <==> !IsUser(users, id)
    ensures k >= 0 ==> UserIndex(users, id) == Some(k)
  {
    k := 0;
    while k < |users|
      invariant 0 <= k <= |users|
      invariant forall j :: 0 <= j < k ==> users[j].id != id
    {
      if users[k].id == id {
        return;
      }
      k := k + 1;
    }
    k := -1;
  }

  /** Overwrites one user's record in place with one that keeps its id,
      role, advisor and capacities (the field writes inside the scans of
      authenticate_user and change_password). */
  method ReplaceUser(db: Store, k: nat, v: User)
    requires k < |db.users|
    requires v.id == db.users[k].id && v.role == db.users[k].role && v.advisorId == db.users[k].advisorId
    requires v.adviseeCapacity == db.users[k].adviseeCapacity && v.juryCapacity == db.users[k].juryCapacity
    modifies db
    ensures db.users == old(db.users)[k := v]
    ensures db.files == old(db.files) && db.messages == old(db.messages) && db.defenses == old(db.defenses)
    ensures old(db.Valid()) ==> db.Valid()
    ensures old(db.Valid() && db.CapacitiesRespected()) ==> db.CapacitiesRespected()
  {
    RecordEditKeepsRules(db.users, db.files, db.messages, db.defenses, k, v);
    db.users := db.users[k := v];
  }

  /** authenticate_user: none unless the user exists, is active, has stored
      credentials and the password verifies; on success only that user's
      last_login changes, and the refreshed record is returned. */
  method AuthenticateUser(db: Store, identifier: Identifier, password: string,
                          verify: (string, Credentials) -> bool, now: Time)
    returns (r: Option<User>)
    modifies db
    ensures db.files == old(db.files) && db.messages == old(db.messages) && db.defenses == old(db.defenses)
    ensures r.Some? <==>
              Lookup(old(db.users), identifier).Some? && Admits(Lookup(old(db.users), identifier).value, password, verify)
    ensures r.None? ==> db.users == old(db.users)
    ensures r.Some? ==>
              var k := UserIndex(old(db.users), Lookup(old(db.users), identifier).value.id).value;
              && db.users == old(db.users)[k := old(db.users)[k].(lastLogin := Some(now))]
              && r.value == db.users[k]
    ensures old(db.Valid()) ==> db.Valid()
    ensures old(db.Valid() && db.CapacitiesRespected()) ==> db.CapacitiesRespected()
  {
    var user := Lookup(db.users, identifier);
    if user.None? {
      return None;
    }
    if !user.value.isActive {
      return None;
    }
    var creds := user.value.credentials;
    if creds.salt == "" || creds.hash == "" {
      return None;
    }
    if !verify(password, creds) {
      return None;
    }
    var stamped := StampLogin(db, user.value.id, now);
    r := Some(stamped);
  }

  /** The store update of a successful login: the first user with that id
      gets the login time and is returned as stored. */
  method StampLogin(db: Store, id: int, now: Time) returns (u: User)
    requires IsUser(db.users, id)
    modifies db
    ensures db.files == old(db.files) && db.messages == old(db.messages) && db.defenses == old(db.defenses)
    ensures var k := UserIndex(old(db.users), id).value;
            && db.users == old(db.users)[k := old(db.users)[k].(lastLogin := Some(now))]
            && u == db.users[k]
    ensures old(db.Valid()) ==> db.Valid()
    ensures old(db.Valid() && db.CapacitiesRespected()) ==> db.CapacitiesRespected()
  {
    var k := ScanForId(db.users, id);
    ReplaceUser(db, k, db.users[k].(lastLogin := Some(now)));
    u := db.users[k];
  }

  /** change_password: fails for an unknown user or an old password that does
      not verify; otherwise replaces that user's salt, hash and iteration count. */
  method ChangePassword(db: Store, userId: int, oldPassword: string, newCredentials: Credentials,
                        verify: (string, Credentials) -> bool)
    returns (r: Outcome)
    modifies db
    ensures db.files == old(db.files) && db.messages == old(db.messages) && db.defenses == old(db.defenses)
    ensures !IsUser(old(db.users), userId) ==> r == Fail(NotFound)
    ensures IsUser(old(db.users), userId) && !verify(oldPassword, GetUserById(old(db.users), userId).value.credentials) ==>
              r == Fail(Auth)
    ensures r.Pass? <==>
              IsUser(old(db.users), userId) && verify(oldPassword, GetUserById(old(db.users), userId).value.credentials)
    ensures r.Fail? ==> db.users == old(db.users)
    ensures r.Pass? ==>
              var k := UserIndex(old(db.users), userId).value;
              db.users == old(db.users)[k := old(db.users)[k].(credentials := newCredentials)]
    ensures old(db.Valid()) ==> db.Valid()
    ensures old(db.Valid() && db.CapacitiesRespected()) ==> db.CapacitiesRespected()
  {
    var user := GetUserById(db.users, userId);
    if user.None? {
      return Fail(NotFound);
    }
    if !verify(oldPassword, user.value.credentials) {
      return Fail(Auth);
    }
    var k := ScanForId(db.users, userId);
    ReplaceUser(db, k, db.users[k].(credentials := newCredentials));
    r := Pass;
  }

  /** require_role: no user is a validation error, another role is refused. */
  function RequireRole(user: Option<User>, role: Role): (r: Outcome)
    ensures r.Pass? <==> user.Some? && user.value.role == role
    ensures user.None? ==> r == Fail(Validation)
    ensures user.Some? && user.value.role != role ==> r == Fail(PermissionDenied)
  {
    if user.None? then Fail(Validation)
    else if user.value.role != role then Fail(PermissionDenied)
    else Pass
  }

  /** list_students_of_teacher: the students advised by t, in stored order. */
  function ListStudentsOfTeacher(users: seq<User>, t: int): (r: seq<User>)
  {
    if users == [] then []
    else
      var rest := ListStudentsOfTeacher(users[..|users| - 1], t);
      if Advises(users[|users| - 1], t) then rest + [users[|users| - 1]] else rest
  }

  /** The students of t are exactly the users advised by t, and count_advisees
      is their number. */
  lemma {:induction false} StudentsOfTeacherCounted(users: seq<User>, t: int)
    ensures forall u :: u in ListStudentsOfTeacher(users, t) <==> u in users && Advises(u, t)
    ensures |ListStudentsOfTeacher(users, t)| == AdviseeCount(users, t)
  {
    if users != [] {
      var init := users[..|users| - 1];
      StudentsOfTeacherCounted(init, t);
      assert users == init + [users[|users| - 1]];
    }
  }

  /** Students of t other than the one with id sid (change_advisor's count). */
  function AdviseeCountExcept(users: seq<User>, t: int, sid: int): (n: nat)
  {
    if users == [] then 0
    else
      var u := users[|users| - 1];
      AdviseeCountExcept(users[..|users| - 1], t, sid) + (if Advises(u, t) && u.id != sid then 1 else 0)
  }

  /** With distinct ids, leaving out the student at k is the same as not counting it. */
  lemma {:induction false} AdviseeCountExceptOne(users: seq<User>, k: nat, t: int)
    requires DistinctIds(users, UserId)
    requires k < |users|
    ensures AdviseeCountExcept(users, t, users[k].id) ==
            AdviseeCount(users, t) - (if Advises(users[k], t) then 1 else 0)
  {
    var n := |users| - 1;
    var init := users[..n];
    assert DistinctIds(init, UserId) by {
      forall i, j | 0 <= i < j < |init| ensures UserId(init[i]) != UserId(init[j]) {
        assert UserId(users[i]) != UserId(users[j]);
      }
    }
    if k == n {
      AdviseeCountExceptNone(init, t, users[k].id);
      assert AdviseeCountExcept(init, t, users[k].id) == AdviseeCount(init, t) by {
        forall j | 0 <= j < |init| ensures init[j].id != users[k].id {
          assert UserId(users[j]) != UserId(users[k]);
        }
      }
    } else {
      AdviseeCountExceptOne(init, k, t);
      assert UserId(users[k]) != UserId(users[n]);
    }
  }

  lemma {:induction false} AdviseeCountExceptNone(users: seq<User>, t: int, sid: int)
    ensures (forall j :: 0 <= j < |users| ==> users[j].id != sid) ==>
              AdviseeCountExcept(users, t, sid) == AdviseeCount(users, t)
  {
    if users != [] {
      AdviseeCountExceptNone(users[..|users| - 1], t, sid);
    }
  }

  /** The date cutoff of change_advisor: a non-empty defense_date that parses
      must still lie strictly in the future. */
  predicate DefenseDatePassed(u: User, today: Date)
  {
    u.defenseDate.Some? && u.defenseDate.value != "" &&
    ParseDate(u.defenseDate.value).Some? && !Before(today, ParseDate(u.defenseDate.value).value)
  }

  predicate DefenseDateUnreadable(u: User)
  {
    u.defenseDate.Some? && u.defenseDate.value != "" && ParseDate(u.defenseDate.value).None?
  }

  predicate HasRole(u: Option<User>, role: Role)
  {
    u.Some? && u.value.role == role
  }

  /** change_advisor. */
  method ChangeAdvisor(db: Store, studentId: int, newTeacherId: int, changedBy: Option<int>, today: Date, now: Time)
    returns (r: Outcome)
    modifies db
    ensures db.files == old(db.files) && db.messages == old(db.messages) && db.defenses == old(db.defenses)
    ensures r.Fail? ==> db.users == old(db.users)
    ensures (!HasRole(GetUserById(old(db.users), studentId), Student) ||
             !HasRole(GetUserById(old(db.users), newTeacherId), Teacher)) ==> r == Fail(NotFound)
    ensures HasRole(GetUserById(old(db.users), studentId), Student) &&
            HasRole(GetUserById(old(db.users), newTeacherId), Teacher) ==>
              var s := GetUserById(old(db.users), studentId).value;
              var t := GetUserById(old(db.users), newTeacherId).value;
              if s.advisorId == Some(newTeacherId) then r == Pass && db.users == old(db.users)
              else if DefenseDateUnreadable(s) then r == Fail(Validation)
              else if DefenseDatePassed(s, today) then r == Fail(Temporal)
              else if AdviseeCountExcept(old(db.users), newTeacherId, studentId) >= AdviseeCapacity(t) then
                r == Fail(CapacityExceeded)
              else
                var k := UserIndex(old(db.users), studentId).value;
                && r == Pass
                && db.users == old(db.users)[k := s.(advisorId := Some(newTeacherId),
                                                      advisorHistory := s.advisorHistory +
                                                        [AdvisorChange(s.advisorId, newTeacherId, changedBy, now)])]
    ensures old(db.Valid()) ==> db.Valid()
    ensures old(db.Valid() && db.CapacitiesRespected()) ==> db.CapacitiesRespected()
  {
    var student := GetUserById(db.users, studentId);
    var teacher := GetUserById(db.users, newTeacherId);
    if student.None? || student.value.role != Student {
      return Fail(NotFound);
    }
    if teacher.None? || teacher.value.role != Teacher {
      return Fail(NotFound);
    }
    var s := student.value;
    if s.advisorId == Some(newTeacherId) {
      return Pass;
    }
    if s.defenseDate.Some? && s.defenseDate.value != "" {
      var cutoff := ParseDate(s.defenseDate.value);
      if cutoff.None? {
        return Fail(Validation);
      }
      if !Before(today, cutoff.value) {
        return Fail(Temporal);
      }
    }
    var others := AdviseeCountExcept(db.users, newTeacherId, studentId);
    if others >= AdviseeCapacity(teacher.value) {
      return Fail(CapacityExceeded);
    }
    var entry := AdvisorChange(s.advisorId, newTeacherId, changedBy, now);
    var k := ScanForId(db.users, studentId);
    var v := s.(advisorId := Some(newTeacherId), advisorHistory := s.advisorHistory + [entry]);
    ReassignKeepsRules(db.users, db.files, db.messages, db.defenses, k, v);
    db.users := db.users[k := v];
    r := Pass;
  }

  /** Moving a student to a teacher with a free slot (counting the others)
      keeps the document rules and both capacity bounds. */
  lemma ReassignKeepsRules(users: seq<User>, files: seq<FileRecord>, messages: seq<Message>, defenses: seq<Defense>,
                           k: nat, v: User)
    requires k < |users| && users[k].role == Student
    requires v.id == users[k].id && v.role == Student && v.advisorId.Some?
    requires HasRole(GetUserById(users, v.advisorId.value), Teacher)
    requires AdviseeCountExcept(users, v.advisorId.value, v.id) < AdviseeCapacity(GetUserById(users, v.advisorId.value).value)
    ensures DocumentValid(users, files, messages, defenses) ==> DocumentValid(users[k := v], files, messages, defenses)
    ensures DocumentValid(users, files, messages, defenses) && AdviseeBound(users) && JuryBound(users, defenses) ==>
              AdviseeBound(users[k := v]) && JuryBound(users[k := v], defenses)
  {
    var users' := users[k := v];
    var T := v.advisorId.value;
    assert KeepsIdentities(users, users');
    DependentsSurvive(users, users', files, messages, defenses);
    forall t ensures IsTeacher(users, t) ==> IsTeacher(users', t) {
      ReferencesSurvive(users, users', t);
    }
    if DocumentValid(users, files, messages, defenses) {
      assert DistinctIds(users', UserId) by {
        forall i, j | 0 <= i < j < |users'| ensures UserId(users'[i]) != UserId(users'[j]) {
          assert UserId(users[i]) != UserId(users[j]);
        }
      }
      forall t ensures AdviseeCount(users', t) ==
          AdviseeCount(users, t) - (if Advises(users[k], t) then 1 else 0) + (if Advises(v, t) then 1 else 0)
      {
        AdviseeCountUpdate(users, k, v, t);
      }
      AdviseeCountExceptOne(users, k, T);
      if AdviseeBound(users) && JuryBound(users, defenses) {
        forall j | 0 <= j < |users'| && users'[j].role == Teacher
          ensures AdviseeCount(users', users'[j].id) <= AdviseeCapacity(users'[j])
          ensures JuryCount(defenses, users'[j].id) <= JuryCapacity(users'[j])
        {
          assert j != k && users'[j] == users[j];
          if users[j].id == T {
            FirstIdMatch(users, j, T);
          }
        }
      }
    }
  }

  /** get_remaining_advisee_slots: capacity minus advisees; fails for an
      unknown id (any existing user is accepted, with the default capacity). */
  function GetRemainingAdviseeSlots(users: seq<User>, t: int): (r: Result<int>)
    ensures r.Err? <==> !IsUser(users, t)
    ensures r.Err? ==> r.error == NotFound
    ensures r.Ok? ==> r.value == AdviseeCapacity(GetUserById(users, t).value) - AdviseeCount(users, t)
  {
    match GetUserById(users, t)
    case None => Err(NotFound)
    case Some(u) => Ok(AdviseeCapacity(u) - AdviseeCount(users, t))
  }

  /** Under the advisee bound a teacher never has a negative number of free slots. */
  lemma RemainingSlotsNonNegative(users: seq<User>, t: int)
    requires DistinctIds(users, UserId) && AdviseeBound(users)
    requires HasRole(GetUserById(users, t), Teacher)
    ensures GetRemainingAdviseeSlots(users, t).Ok? && GetRemainingAdviseeSlots(users, t).value >= 0
  {
    var k := UserIndex(users, t).value;
    assert users[k].role == Teacher;
  }

  /** set_teacher_capacity: updates the supplied capacities of the first
      teacher with that id; false, with nothing changed, if there is none. */
  method SetTeacherCapacity(db: Store, teacherId: int, adviseeCapacity: Option<int>, juryCapacity: Option<int>)
    returns (r: bool)
    modifies db
    ensures db.files == old(db.files) && db.messages == old(db.messages) && db.defenses == old(db.defenses)
    ensures r <==> IsTeacher(old(db.users), teacherId)
    ensures !r ==> db.users == old(db.users)
    ensures r ==> exists k :: && 0 <= k < |old(db.users)|
                              && old(db.users)[k].id == teacherId && old(db.users)[k].role == Teacher
                              && (forall j :: 0 <= j < k ==> !(old(db.users)[j].id == teacherId && old(db.users)[j].role == Teacher))
                              && db.users == old(db.users)[k := WithCapacities(old(db.users)[k], adviseeCapacity, juryCapacity)]
    ensures old(db.Valid()) ==> db.Valid()
  {
    var k := 0;
    while k < |db.users|
      invariant 0 <= k <= |db.users|
      invariant forall j :: 0 <= j < k ==> !(db.users[j].id == teacherId && db.users[j].role == Teacher)
    {
      if db.users[k].id == teacherId && db.users[k].role == Teacher {
        var users' := db.users[k := WithCapacities(db.users[k], adviseeCapacity, juryCapacity)];
        SameStandingKeepsRules(db.users, users', db.files, db.messages, db.defenses);
        db.users := users';
        return true;
      }
      k := k + 1;
    }
    return false;
  }

  /** The record with the supplied capacities replaced and the others kept. */
  function WithCapacities(u: User, adviseeCapacity: Option<int>, juryCapacity: Option<int>): (v: User)
    ensures v.id == u.id && v.role == u.role && v.advisorId == u.advisorId
    ensures AdviseeCapacity(v) == if adviseeCapacity.Some? then adviseeCapacity.value else AdviseeCapacity(u)
    ensures JuryCapacity(v) == if juryCapacity.Some? then juryCapacity.value else JuryCapacity(u)
  {
    u.(adviseeCapacity := if adviseeCapacity.Some? then adviseeCapacity else u.adviseeCapacity,
       juryCapacity := if juryCapacity.Some? then juryCapacity else u.juryCapacity)
  }

  /** set_teacher_capacity does not check current use: lowering a capacity
      below the number of advisees leaves the advisee bound broken. */
  lemma CapacityLoweringBreaksBound()
    ensures var creds := Credentials("s", "h", 1);
            var t := User(1, "T", Teacher, None, None, creds, 0, None, true, [], Some(5), Some(10));
            var s := User(2, "S", Student, Some(1), None, creds, 0, None, true, [], None, None);
            var users := [t, s];
            AdviseeBound(users) &&
            !AdviseeBound(users[0 := WithCapacities(t, Some(0), None)])
  {
    var creds := Credentials("s", "h", 1);
    var t := User(1, "T", Teacher, None, None, creds, 0, None, true, [], Some(5), Some(10));
    var s := User(2, "S", Student, Some(1), None, creds, 0, None, true, [], None, None);
    var users := [t, s];
    assert AdviseeCount(users, 1) == 1 by {
      assert users[..1] == [t];
      assert [t][..0] == [];
    }
    assert AdviseeCount(users, 2) == 0 by {
      assert users[..1] == [t];
      assert [t][..0] == [];
    }
    var lowered := users[0 := WithCapacities(t, Some(0), None)];
    assert AdviseeCount(lowered, 1) == 1 by {
      assert lowered[..1] == [lowered[0]];
      assert [lowered[0]][..0] == [];
    }
  }
}
