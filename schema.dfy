// The document: four collections of records (users, files, messages,
// defenses), the in-memory store that holds them, and the integrity rules
// that the ledgers maintain by hand (database.py and the checks spread over
// the four ledgers).

module Schema {
  import opened Common

  datatype Role = Student | Teacher

  /** What the password primitive derives: hex salt, hex hash, iteration count. */
  datatype Credentials = Credentials(salt: string, hash: string, iterations: int)

  /** One entry of a student's append-only advisor history. */
  datatype AdvisorChange = AdvisorChange(oldAdvisor: Option<int>, newAdvisor: int, changedBy: Option<int>, changedAt: Time)

  datatype User = User(
    id: int,
    name: string,
    role: Role,
    advisorId: Option<int>,
    defenseDate: Option<string>,
    credentials: Credentials,
    createdAt: Time,
    lastLogin: Option<Time>,
    isActive: bool,
    advisorHistory: seq<AdvisorChange>,
    adviseeCapacity: Option<int>,   // present on teachers only
    juryCapacity: Option<int>)      // present on teachers only

  /** Committee roles are free text; these two are the ones the ledger writes. */
  const TeacherRole: string := "teacher"
  const ExternalRole: string := "external"

  /** A normalised committee entry {id?, name, role}. */
  datatype Member = Member(id: Option<int>, name: string, role: string)

  datatype Defense = Defense(
    id: int,
    studentId: int,
    date: string,
    committee: seq<Member>,
    finalScore: Option<real>,
    notes: Option<string>,
    recordedBy: Option<int>,
    recordedAt: Time)

  datatype Message = Message(
    id: int,
    senderId: int,
    receiverId: int,
    text: string,
    createdAt: Time,
    isRead: bool,
    readAt: Option<Time>)

  datatype FileRecord = FileRecord(
    id: int,
    originalName: string,
    storedPath: string,
    fileType: string,
    description: string,
    uploaderId: Option<int>,
    sizeBytes: int,
    registeredAt: Time)

  function UserId(u: User): int { u.id }
  function DefenseId(d: Defense): int { d.id }
  function MessageId(m: Message): int { m.id }
  function FileId(f: FileRecord): int { f.id }

  // ---------------------------------------------------------------------
  // References between collections are ids, resolved by scanning users.

  predicate IsUser(users: seq<User>, t: int)
  {
    exists k :: 0 <= k < |users| && users[k].id == t
  }

  predicate IsTeacher(users: seq<User>, t: int)
  {
    exists k :: 0 <= k < |users| && users[k].id == t && users[k].role == Teacher
  }

  predicate IsStudent(users: seq<User>, t: int)
  {
    exists k :: 0 <= k < |users| && users[k].id == t && users[k].role == Student
  }

  // ---------------------------------------------------------------------
  // Capacities and the counts they bound.

  const DefaultAdviseeCapacity: int := 5
  const DefaultJuryCapacity: int := 10

  /** `advisee_capacity`, or 5 where the record has none. */
  function AdviseeCapacity(u: User): int
  {
    u.adviseeCapacity.GetOr(DefaultAdviseeCapacity)
  }

  /** `jury_capacity`, or 10 where the record has none. */
  function JuryCapacity(u: User): int
  {
    u.juryCapacity.GetOr(DefaultJuryCapacity)
  }

  /** u is a student whose advisor is t. */
  predicate Advises(u: User, t: int)
  {
    u.role == Student && u.advisorId == Some(t)
  }

  /** count_advisees: students whose advisor_id is t. */
  function AdviseeCount(users: seq<User>, t: int): (n: nat)
    ensures n <= |users|
  {
    if users == [] then 0
    else AdviseeCount(users[..|users| - 1], t) + (if Advises(users[|users| - 1], t) then 1 else 0)
  }

  /** A committee entry that occupies one of t's jury seats. */
  predicate Seats(m: Member, t: int)
  {
    m.id == Some(t) && m.role == TeacherRole
  }

  /** How many entries of one committee occupy a seat of t (its multiplicity). */
  function SeatCount(committee: seq<Member>, t: int): (n: nat)
    ensures n <= |committee|
  {
    if committee == [] then 0
    else SeatCount(committee[..|committee| - 1], t) + (if Seats(committee[|committee| - 1], t) then 1 else 0)
  }

  /** count_jury_assignments: seats of t over all defenses. */
  function JuryCount(defenses: seq<Defense>, t: int): nat
  {
    if defenses == [] then 0
    else JuryCount(defenses[..|defenses| - 1], t) + SeatCount(defenses[|defenses| - 1].committee, t)
  }

  /** For every teacher, count_advisees(t) <= advisee_capacity(t). */
  ghost predicate AdviseeBound(users: seq<User>)
  {
    forall k :: 0 <= k < |users| && users[k].role == Teacher ==>
      AdviseeCount(users, users[k].id) <= AdviseeCapacity(users[k])
  }

  /** For every teacher, count_jury_assignments(t) <= jury_capacity(t). */
  ghost predicate JuryBound(users: seq<User>, defenses: seq<Defense>)
  {
    forall k :: 0 <= k < |users| && users[k].role == Teacher ==>
      JuryCount(defenses, users[k].id) <= JuryCapacity(users[k])
  }

  // ---------------------------------------------------------------------
  // Referential and shape rules.

  /** A student's advisor_id, when set, names a teacher. */
  ghost predicate AdvisorsResolve(users: seq<User>)
  {
    forall k :: 0 <= k < |users| && users[k].role == Student && users[k].advisorId.Some? ==>
      IsTeacher(users, users[k].advisorId.value)
  }

  /** A committee entry with an id is a teacher of the store. */
  ghost predicate MemberResolves(users: seq<User>, m: Member)
  {
    m.id.Some? ==> m.role == TeacherRole && IsTeacher(users, m.id.value)
  }

  ghost predicate CommitteesResolve(users: seq<User>, defenses: seq<Defense>)
  {
    forall i, j :: 0 <= i < |defenses| && 0 <= j < |defenses[i].committee| ==>
      MemberResolves(users, defenses[i].committee[j])
  }

  ghost predicate DefendersResolve(users: seq<User>, defenses: seq<Defense>)
  {
    forall i :: 0 <= i < |defenses| ==> IsStudent(users, defenses[i].studentId)
  }

  /** At most one defense per student_id. */
  ghost predicate OneDefensePerStudent(defenses: seq<Defense>)
  {
    forall i, j :: 0 <= i < j < |defenses| ==> defenses[i].studentId != defenses[j].studentId
  }

  predicate ScoreInRange(s: Option<real>)
  {
    s.Some? ==> 0.0 <= s.value <= 20.0
  }

  ghost predicate ScoresInRange(defenses: seq<Defense>)
  {
    forall i :: 0 <= i < |defenses| ==> ScoreInRange(defenses[i].finalScore)
  }

  /** The file_type whitelist, without the dot. */
  const AllowedFileTypes: set<string> := {"pdf", "jpg", "jpeg"}

  ghost predicate FilesResolve(users: seq<User>, files: seq<FileRecord>)
  {
    forall i :: 0 <= i < |files| ==>
      files[i].fileType in AllowedFileTypes &&
      (files[i].uploaderId.Some? ==> IsUser(users, files[i].uploaderId.value))
  }

  ghost predicate MessagesResolve(users: seq<User>, messages: seq<Message>)
  {
    forall i :: 0 <= i < |messages| ==>
      IsUser(users, messages[i].senderId) && IsUser(users, messages[i].receiverId)
  }

  /** Everything every successful operation keeps, capacities aside. */
  ghost predicate DocumentValid(users: seq<User>, files: seq<FileRecord>, messages: seq<Message>, defenses: seq<Defense>)
  {
    && DistinctIds(users, UserId)
    && DistinctIds(files, FileId)
    && DistinctIds(messages, MessageId)
    && DistinctIds(defenses, DefenseId)
    && AdvisorsResolve(users)
    && CommitteesResolve(users, defenses)
    && DefendersResolve(users, defenses)
    && OneDefensePerStudent(defenses)
    && ScoresInRange(defenses)
    && FilesResolve(users, files)
    && MessagesResolve(users, messages)
  }

  /** The document held in memory during an operation. */
  class Store {
    var users: seq<User>
    var files: seq<FileRecord>
    var messages: seq<Message>
    var defenses: seq<Defense>

    /** The empty document: four empty collections. */
    constructor ()
      ensures users == [] && files == [] && messages == [] && defenses == []
      ensures Valid() && CapacitiesRespected()
    {
      users := [];
      files := [];
      messages := [];
      defenses := [];
    }

    ghost predicate Valid()
      reads this
    {
      DocumentValid(users, files, messages, defenses)
    }

    /** The two capacity invariants. */
    ghost predicate CapacitiesRespected()
      reads this
    {
      AdviseeBound(users) && JuryBound(users, defenses)
    }
  }

  // ---------------------------------------------------------------------
  // How the rules survive changes to the user collection.

  /** u2 keeps every record of u1 in place with its id and role (and may add more). */
  ghost predicate KeepsIdentities(u1: seq<User>, u2: seq<User>)
  {
    |u1| <= |u2| &&
    forall k :: 0 <= k < |u1| ==> u2[k].id == u1[k].id && u2[k].role == u1[k].role
  }

  lemma ReferencesSurvive(u1: seq<User>, u2: seq<User>, t: int)
    requires KeepsIdentities(u1, u2)
    ensures IsUser(u1, t) ==> IsUser(u2, t)
    ensures IsTeacher(u1, t) ==> IsTeacher(u2, t)
    ensures IsStudent(u1, t) ==> IsStudent(u2, t)
  {
    if IsUser(u1, t) {
      var k :| 0 <= k < |u1| && u1[k].id == t;
      assert u2[k].id == t;
    }
    if IsTeacher(u1, t) {
      var k :| 0 <= k < |u1| && u1[k].id == t && u1[k].role == Teacher;
      assert u2[k].id == t && u2[k].role == Teacher;
    }
    if IsStudent(u1, t) {
      var k :| 0 <= k < |u1| && u1[k].id == t && u1[k].role == Student;
      assert u2[k].id == t && u2[k].role == Student;
    }
  }

  /** Rules about the other collections only look at users' ids and roles. */
  lemma DependentsSurvive(u1: seq<User>, u2: seq<User>, files: seq<FileRecord>, messages: seq<Message>, defenses: seq<Defense>)
    requires KeepsIdentities(u1, u2)
    ensures CommitteesResolve(u1, defenses) ==> CommitteesResolve(u2, defenses)
    ensures DefendersResolve(u1, defenses) ==> DefendersResolve(u2, defenses)
    ensures FilesResolve(u1, files) ==> FilesResolve(u2, files)
    ensures MessagesResolve(u1, messages) ==> MessagesResolve(u2, messages)
  {
    forall t
      ensures IsUser(u1, t) ==> IsUser(u2, t)
      ensures IsTeacher(u1, t) ==> IsTeacher(u2, t)
      ensures IsStudent(u1, t) ==> IsStudent(u2, t)
    {
      ReferencesSurvive(u1, u2, t);
    }
  }

  /** Users with the same ids, roles and advisors, position by position. */
  ghost predicate SameStanding(u1: seq<User>, u2: seq<User>)
  {
    |u1| == |u2| &&
    forall k :: 0 <= k < |u1| ==>
      u2[k].id == u1[k].id && u2[k].role == u1[k].role && u2[k].advisorId == u1[k].advisorId
  }

  lemma {:induction false} AdviseeCountSameStanding(u1: seq<User>, u2: seq<User>, t: int)
    requires SameStanding(u1, u2)
    ensures AdviseeCount(u1, t) == AdviseeCount(u2, t)
  {
    if u1 != [] {
      AdviseeCountSameStanding(u1[..|u1| - 1], u2[..|u2| - 1], t);
    }
  }

  /** An in-place edit that keeps ids, roles and advisors keeps every rule
      except possibly the capacity bounds, which also hold if capacities are kept. */
  lemma SameStandingKeepsRules(u1: seq<User>, u2: seq<User>, files: seq<FileRecord>, messages: seq<Message>, defenses: seq<Defense>)
    requires SameStanding(u1, u2)
    ensures DocumentValid(u1, files, messages, defenses) ==> DocumentValid(u2, files, messages, defenses)
    ensures (forall k :: 0 <= k < |u1| && u1[k].role == Teacher ==>
               AdviseeCapacity(u2[k]) == AdviseeCapacity(u1[k]) && JuryCapacity(u2[k]) == JuryCapacity(u1[k]))
            ==> (AdviseeBound(u1) ==> AdviseeBound(u2)) && (JuryBound(u1, defenses) ==> JuryBound(u2, defenses))
  {
    DependentsSurvive(u1, u2, files, messages, defenses);
    assert KeepsIdentities(u1, u2);
    forall t
      ensures IsTeacher(u1, t) ==> IsTeacher(u2, t)
      ensures AdviseeCount(u1, t) == AdviseeCount(u2, t)
    {
      ReferencesSurvive(u1, u2, t);
      AdviseeCountSameStanding(u1, u2, t);
    }
    forall k | 0 <= k < |u1| && u1[k].role == Student && u1[k].advisorId.Some?
      ensures IsTeacher(u1, u1[k].advisorId.value) ==> IsTeacher(u2, u2[k].advisorId.value)
    {
    }
    assert DistinctIds(u1, UserId) ==> DistinctIds(u2, UserId) by {
      if DistinctIds(u1, UserId) {
        forall i, j | 0 <= i < j < |u2| ensures UserId(u2[i]) != UserId(u2[j]) {
          assert UserId(u1[i]) != UserId(u1[j]);
        }
      }
    }
  }

  /** Rewriting one user's other fields (a login time, credentials) keeps
      every rule and both capacity bounds. */
  lemma RecordEditKeepsRules(users: seq<User>, files: seq<FileRecord>, messages: seq<Message>, defenses: seq<Defense>,
                             k: nat, v: User)
    requires k < |users|
    requires v.id == users[k].id && v.role == users[k].role && v.advisorId == users[k].advisorId
    requires v.adviseeCapacity == users[k].adviseeCapacity && v.juryCapacity == users[k].juryCapacity
    ensures DocumentValid(users, files, messages, defenses) ==> DocumentValid(users[k := v], files, messages, defenses)
    ensures AdviseeBound(users) ==> AdviseeBound(users[k := v])
    ensures JuryBound(users, defenses) ==> JuryBound(users[k := v], defenses)
  {
    var u2 := users[k := v];
    assert SameStanding(users, u2);
    SameStandingKeepsRules(users, u2, files, messages, defenses);
  }

  /** With distinct ids, the record a scan by id finds is the one at the given index. */
  lemma FirstIdMatch(users: seq<User>, k: nat, t: int)
    requires DistinctIds(users, UserId)
    requires k < |users| && users[k].id == t
    ensures FindFirst(users, (u: User) => u.id == t) == Some(k)
  {
    var r := FindFirst(users, (u: User) => u.id == t);
    assert forall j :: 0 <= j < |users| && j != k ==> users[j].id != t by {
      forall j | 0 <= j < |users| && j != k ensures users[j].id != t {
        if j < k { assert UserId(users[j]) != UserId(users[k]); }
        else { assert UserId(users[k]) != UserId(users[j]); }
      }
    }
  }

  // ---------------------------------------------------------------------
  // How the counts change.

  lemma AdviseeCountAppend(users: seq<User>, x: User, t: int)
    ensures AdviseeCount(users + [x], t) == AdviseeCount(users, t) + (if Advises(x, t) then 1 else 0)
  {
    assert (users + [x])[..|users|] == users;
  }

  /** Replacing one record changes a count by what the old and new record contribute. */
  lemma {:induction false} AdviseeCountUpdate(users: seq<User>, k: nat, v: User, t: int)
    requires k < |users|
    ensures AdviseeCount(users[k := v], t) ==
      AdviseeCount(users, t) - (if Advises(users[k], t) then 1 else 0) + (if Advises(v, t) then 1 else 0)
  {
    var n := |users| - 1;
    if k == n {
      assert users[k := v][..n] == users[..n];
    } else {
      AdviseeCountUpdate(users[..n], k, v, t);
      assert users[k := v][..n] == users[..n][k := v];
    }
  }

  /** Nobody advised by t means a zero count. */
  lemma {:induction false} AdviseeCountZero(users: seq<User>, t: int)
    requires forall k :: 0 <= k < |users| ==> !Advises(users[k], t)
    ensures AdviseeCount(users, t) == 0
  {
    if users != [] {
      AdviseeCountZero(users[..|users| - 1], t);
    }
  }

  /** A positive count has a witness. */
  lemma {:induction false} SeatCountWitness(committee: seq<Member>, t: int)
    requires SeatCount(committee, t) > 0
    ensures exists j :: 0 <= j < |committee| && Seats(committee[j], t)
  {
    var n := |committee| - 1;
    if !Seats(committee[n], t) {
      SeatCountWitness(committee[..n], t);
      var j :| 0 <= j < n && Seats(committee[..n][j], t);
      assert committee[j] == committee[..n][j];
    }
  }

  lemma JuryCountAppend(defenses: seq<Defense>, d: Defense, t: int)
    ensures JuryCount(defenses + [d], t) == JuryCount(defenses, t) + SeatCount(d.committee, t)
  {
    assert (defenses + [d])[..|defenses|] == defenses;
  }

  lemma {:induction false} JuryCountUpdate(defenses: seq<Defense>, i: nat, d: Defense, t: int)
    requires i < |defenses|
    ensures JuryCount(defenses, t) >= SeatCount(defenses[i].committee, t)
    ensures JuryCount(defenses[i := d], t) ==
      JuryCount(defenses, t) - SeatCount(defenses[i].committee, t) + SeatCount(d.committee, t)
  {
    var n := |defenses| - 1;
    if i == n {
      assert defenses[i := d][..n] == defenses[..n];
    } else {
      JuryCountUpdate(defenses[..n], i, d, t);
      assert defenses[i := d][..n] == defenses[..n][i := d];
    }
  }

  /** No seat of t in any committee means a zero count. */
  lemma {:induction false} JuryCountZero(defenses: seq<Defense>, t: int)
    requires forall i, j :: 0 <= i < |defenses| && 0 <= j < |defenses[i].committee| ==> !Seats(defenses[i].committee[j], t)
    ensures JuryCount(defenses, t) == 0
  {
    if defenses != [] {
      var n := |defenses| - 1;
      JuryCountZero(defenses[..n], t);
      if SeatCount(defenses[n].committee, t) > 0 {
        SeatCountWitness(defenses[n].committee, t);
      }
    }
  }

  /** A user that does not exist yet has no advisees and no jury seats. */
  lemma StrangerHasNoLoad(users: seq<User>, defenses: seq<Defense>, t: int)
    requires AdvisorsResolve(users) && CommitteesResolve(users, defenses)
    requires !IsUser(users, t)
    ensures AdviseeCount(users, t) == 0
    ensures JuryCount(defenses, t) == 0
  {
    forall k | 0 <= k < |users| ensures !Advises(users[k], t) {
      if users[k].role == Student && users[k].advisorId.Some? {
        var a := users[k].advisorId.value;
        assert IsTeacher(users, a);
        var w :| 0 <= w < |users| && users[w].id == a && users[w].role == Teacher;
        assert a != t;
      }
    }
    AdviseeCountZero(users, t);
    forall i, j | 0 <= i < |defenses| && 0 <= j < |defenses[i].committee|
      ensures !Seats(defenses[i].committee[j], t)
    {
      assert MemberResolves(users, defenses[i].committee[j]);
    }
    JuryCountZero(defenses, t);
  }
}
