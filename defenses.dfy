// The defense ledger (defense_manager.py): committee normalisation, jury
// counting with multiplicity, recording one defense per student, listing
// and amendment. Where the source's indentation or early returns depart
// from what it evidently means, the intended behaviour is modelled here and
// the code as written is modelled beside it (the *AsWritten members).

module DefenseLedger {
  import opened Common
  import opened Text
  import opened Dates
  import opened Schema
  import opened Accounts

  /** _next_defense_id. */
  function NextDefenseId(defenses: seq<Defense>): (r: int)
    ensures defenses == [] ==> r == 1
    ensures forall k :: 0 <= k < |defenses| ==> defenses[k].id < r
    ensures defenses != [] ==> exists k :: 0 <= k < |defenses| && defenses[k].id == r - 1
  {
    NextId(defenses, DefenseId)
  }

  // ---------------------------------------------------------------------
  // Committee normalisation.

  /** One element of the committee_members list: an integer user id, a
      bare name, a dict with optional "id", "name" and "role" keys, or any
      other value (which the source refuses). */
  datatype MemberInput =
    | MemberId(id: int)
    | MemberName(name: string)
    | MemberDict(dictId: Option<int>, dictName: Option<string>, dictRole: Option<string>)
    | MemberOther

  /** An entry naming a user id: it must be a teacher, and becomes a teacher seat. */
  function TeacherEntry(users: seq<User>, t: int): (r: Result<Option<Member>>)
    ensures r.Ok? <==> HasRole(GetUserById(users, t), Teacher)
    ensures r.Ok? ==> r.value == Some(Member(Some(t), GetUserById(users, t).value.name, TeacherRole))
    ensures r.Err? ==> r.error == (if IsUser(users, t) then Validation else NotFound)
  {
    match GetUserById(users, t)
    case None => Err(NotFound)
    case Some(u) => if u.role != Teacher then Err(Validation) else Ok(Some(Member(Some(u.id), u.name, TeacherRole)))
  }

  /** How _normalize_committee maps one element: Ok(None) means skipped. */
  function NormalizeEntry(users: seq<User>, item: MemberInput): (r: Result<Option<Member>>)
    ensures r == Ok(None) <==> item.MemberName? && IsBlank(item.name)
    ensures r.Ok? && r.value.Some? ==> MemberResolves(users, r.value.value)
    ensures item.MemberOther? || (item.MemberDict? && item.dictId.None? && item.dictName.None?) ==> r == Err(Validation)
    ensures item.MemberName? && !IsBlank(item.name) ==> r == Ok(Some(Member(None, Trim(item.name), ExternalRole)))
    ensures item.MemberDict? && item.dictId.None? && item.dictName.Some? ==>
              r == Ok(Some(Member(None, Trim(item.dictName.value), item.dictRole.GetOr(ExternalRole))))
  {
    match item
    case MemberId(t) => TeacherEntry(users, t)
    case MemberName(s) =>
      TrimShape(s);
      if Trim(s) == [] then Ok(None) else Ok(Some(Member(None, Trim(s), ExternalRole)))
    case MemberDict(id, name, role) =>
      if id.Some? then TeacherEntry(users, id.value)
      else if name.Some? then Ok(Some(Member(None, Trim(name.value), role.GetOr(ExternalRole))))
      else Err(Validation)
    case MemberOther => Err(Validation)
  }

  /** The id arms of _normalize_committee: an int, or a dict whose "id" is
      not null, is resolved as a teacher entry for that id (the dict's name
      and role are ignored). */
  lemma NormalizeEntryById(users: seq<User>, item: MemberInput)
    requires item.MemberId? || (item.MemberDict? && item.dictId.Some?)
    ensures var t := if item.MemberId? then item.id else item.dictId.value;
            && NormalizeEntry(users, item) == TeacherEntry(users, t)
            && (NormalizeEntry(users, item).Ok? <==> HasRole(GetUserById(users, t), Teacher))
            && (!IsUser(users, t) ==> NormalizeEntry(users, item) == Err(NotFound))
            && (IsUser(users, t) && !HasRole(GetUserById(users, t), Teacher) ==>
                  NormalizeEntry(users, item) == Err(Validation))
  {
  }

  /** The normalised list before the has-teacher check: the first failing
      element's error, or the mapped elements in order with blanks skipped. */
  function NormalizedEntries(users: seq<User>, items: seq<MemberInput>): (r: Result<seq<Member>>)
    ensures r.Ok? ==> |r.value| <= |items|
    ensures r.Ok? ==> forall j :: 0 <= j < |r.value| ==> MemberResolves(users, r.value[j])
  {
    if items == [] then Ok([])
    else
      match NormalizedEntries(users, items[..|items| - 1])
      case Err(e) => Err(e)
      case Ok(ms) =>
        match NormalizeEntry(users, items[|items| - 1])
        case Err(e) => Err(e)
        case Ok(None) => Ok(ms)
        case Ok(Some(m)) => Ok(ms + [m])
  }

  /** The list fails exactly when one of its elements does. */
  lemma {:induction false} NormalizedEntriesFail(users: seq<User>, items: seq<MemberInput>)
    ensures NormalizedEntries(users, items).Ok? <==>
            forall i :: 0 <= i < |items| ==> NormalizeEntry(users, items[i]).Ok?
  {
    if items != [] {
      var init := items[..|items| - 1];
      NormalizedEntriesStep(users, items);
      NormalizedEntriesFail(users, init);
      if NormalizedEntries(users, items).Ok? {
        forall i | 0 <= i < |items| ensures NormalizeEntry(users, items[i]).Ok? {
          if i < |init| {
            assert items[i] == init[i];
          }
        }
      } else if NormalizedEntries(users, init).Err? {
        var i :| 0 <= i < |init| && !NormalizeEntry(users, init[i]).Ok?;
        assert items[i] == init[i];
      }
    }
  }

  /** One more element: the list normalises exactly when its prefix and that element do. */
  lemma NormalizedEntriesStep(users: seq<User>, items: seq<MemberInput>)
    requires items != []
    ensures NormalizedEntries(users, items).Ok? <==>
            NormalizedEntries(users, items[..|items| - 1]).Ok? && NormalizeEntry(users, items[|items| - 1]).Ok?
  {
  }

  /** Once a prefix has failed, the whole list fails with the same error. */
  lemma {:induction false} NormalizedErrorSticks(users: seq<User>, items: seq<MemberInput>, i: nat)
    requires i <= |items|
    requires NormalizedEntries(users, items[..i]).Err?
    ensures NormalizedEntries(users, items) == NormalizedEntries(users, items[..i])
  {
    if i < |items| {
      var init := items[..|items| - 1];
      assert init[..i] == items[..i];
      NormalizedErrorSticks(users, init, i);
    } else {
      assert items[..i] == items;
    }
  }

  predicate HasTeacher(ms: seq<Member>)
  {
    exists j :: 0 <= j < |ms| && ms[j].role == TeacherRole
  }

  /** _normalize_committee: the normalised entries, refused when none of them
      has role "teacher". */
  function Committee(users: seq<User>, items: seq<MemberInput>): (r: Result<seq<Member>>)
    ensures r.Ok? ==> HasTeacher(r.value) && |r.value| <= |items|
    ensures r.Ok? ==> forall j :: 0 <= j < |r.value| ==> MemberResolves(users, r.value[j])
    ensures NormalizedEntries(users, items).Ok? && !HasTeacher(NormalizedEntries(users, items).value) ==>
              r == Err(Validation)
  {
    match NormalizedEntries(users, items)
    case Err(e) => Err(e)
    case Ok(ms) => if HasTeacher(ms) then Ok(ms) else Err(Validation)
  }

  /** _normalize_committee, with its building loop. */
  method NormalizeCommittee(users: seq<User>, items: seq<MemberInput>) returns (r: Result<seq<Member>>)
    ensures r == Committee(users, items)
  {
    var acc: seq<Member> := [];
    var i := 0;
    while i < |items|
      invariant 0 <= i <= |items|
      invariant NormalizedEntries(users, items[..i]) == Ok(acc)
    {
      assert items[..i + 1][..i] == items[..i];
      var entry := NormalizeEntry(users, items[i]);
      if entry.Err? {
        NormalizedErrorSticks(users, items, i + 1);
        return Err(entry.error);
      }
      if entry.value.Some? {
        acc := acc + [entry.value.value];
      }
      i := i + 1;
    }
    assert items[..|items|] == items;
    var hasTeacher := false;
    var j := 0;
    while j < |acc|
      invariant 0 <= j <= |acc|
      invariant hasTeacher <==> exists q :: 0 <= q < j && acc[q].role == TeacherRole
    {
      if acc[j].role == TeacherRole {
        hasTeacher := true;
      }
      j := j + 1;
    }
    if !hasTeacher {
      return Err(Validation);
    }
    r := Ok(acc);
  }

  /** A dict that claims role "teacher" without an id passes the has-teacher
      check, yet occupies no teacher's jury seat. */
  lemma NameOnlyTeacherHasNoSeat(users: seq<User>, name: string, t: int)
    requires !IsBlank(name)
    ensures Committee(users, [MemberDict(None, Some(name), Some(TeacherRole))]).Ok?
    ensures SeatCount(Committee(users, [MemberDict(None, Some(name), Some(TeacherRole))]).value, t) == 0
  {
    var items := [MemberDict(None, Some(name), Some(TeacherRole))];
    assert items[..0] == [];
    var m := Member(None, Trim(name), TeacherRole);
    assert NormalizeEntry(users, items[0]) == Ok(Some(m));
    assert items[..|items| - 1] == [] && items[|items| - 1] == items[0];
    assert NormalizedEntries(users, items[..|items| - 1]) == Ok([]);
    assert NormalizedEntries(users, items) == Ok([] + [m]);
    assert [] + [m] == [m];
    assert [m][0].role == TeacherRole;
    assert HasTeacher([m]);
    assert [m][..0] == [];
  }

  // ---------------------------------------------------------------------
  // Jury counting.

  /** count_jury_assignments, with its nested loop. */
  method CountJuryAssignments(defenses: seq<Defense>, t: int) returns (n: nat)
    ensures n == JuryCount(defenses, t)
  {
    n := 0;
    var i := 0;
    while i < |defenses|
      invariant 0 <= i <= |defenses|
      invariant n == JuryCount(defenses[..i], t)
    {
      var c := defenses[i].committee;
      var j := 0;
      while j < |c|
        invariant 0 <= j <= |c|
        invariant n == JuryCount(defenses[..i], t) + SeatCount(c[..j], t)
      {
        assert c[..j + 1][..j] == c[..j];
        if c[j].id == Some(t) && c[j].role == TeacherRole {
          n := n + 1;
        }
        j := j + 1;
      }
      assert c[..|c|] == c;
      assert defenses[..i + 1][..i] == defenses[..i];
      i := i + 1;
    }
    assert defenses[..|defenses|] == defenses;
  }

  /** An entry the capacity check counts: role teacher with an id. */
  predicate Counted(m: Member)
  {
    m.role == TeacherRole && m.id.Some?
  }

  /** Teacher t exists and can take this committee's seats on top of its
      current ones (the committee's multiplicity of t is its SeatCount). */
  predicate SeatFits(users: seq<User>, defenses: seq<Defense>, committee: seq<Member>, t: int)
  {
    match GetUserById(users, t)
    case None => false
    case Some(u) => JuryCount(defenses, t) + SeatCount(committee, t) <= JuryCapacity(u)
  }

  predicate Overloads(users: seq<User>, defenses: seq<Defense>, committee: seq<Member>, m: Member)
  {
    Counted(m) && !SeatFits(users, defenses, committee, m.id.value)
  }

  /** The per-teacher capacity check of record_defense and update_defense:
      teachers are visited in order of first appearance, and the first one
      that is unknown or would exceed its capacity fails the call. */
  function JuryCheck(users: seq<User>, defenses: seq<Defense>, committee: seq<Member>): (r: Outcome)
    ensures r.Pass? <==> forall j :: 0 <= j < |committee| && Counted(committee[j]) ==>
                           SeatFits(users, defenses, committee, committee[j].id.value)
    ensures r.Fail? ==> r.error == NotFound || r.error == CapacityExceeded
  {
    match FindFirst(committee, (m: Member) => Overloads(users, defenses, committee, m))
    case None => Pass
    case Some(i) => if IsUser(users, committee[i].id.value) then Fail(CapacityExceeded) else Fail(NotFound)
  }

  /** The capacity check as the source runs it, one counted entry at a time. */
  method CheckJuryCapacity(users: seq<User>, defenses: seq<Defense>, committee: seq<Member>) returns (r: Outcome)
    ensures r == JuryCheck(users, defenses, committee)
  {
    var i := 0;
    while i < |committee|
      invariant 0 <= i <= |committee|
      invariant forall j :: 0 <= j < i ==> !Overloads(users, defenses, committee, committee[j])
    {
      var m := committee[i];
      if m.role == TeacherRole && m.id.Some? {
        var t := m.id.value;
        var teacher := GetUserById(users, t);
        if teacher.None? {
          return Fail(NotFound);
        }
        var current := CountJuryAssignments(defenses, t);
        var add := SeatCount(committee, t);
        if current + add > JuryCapacity(teacher.value) {
          return Fail(CapacityExceeded);
        }
      }
      i := i + 1;
    }
    r := Pass;
  }

  // ---------------------------------------------------------------------
  // Recording a defense.

  /** A final_score argument: a number, or a value float() refuses. */
  datatype ScoreArg = Numeric(value: real) | NotNumeric

  /** The score check: absent stays absent; a number must lie in [0, 20]. */
  function ScoreValue(s: Option<ScoreArg>): (r: Result<Option<real>>)
    ensures r.Ok? <==> s.None? || (s.value.Numeric? && 0.0 <= s.value.value <= 20.0)
    ensures r.Ok? ==> ScoreInRange(r.value)
    ensures r.Ok? ==> r.value == if s.None? then None else Some(s.value.value)
    ensures r.Err? ==> r.error == Validation
  {
    match s
    case None => Ok(None)
    case Some(NotNumeric) => Err(Validation)
    case Some(Numeric(v)) => if v < 0.0 || v > 20.0 then Err(Validation) else Ok(Some(v))
  }

  predicate HasDefense(defenses: seq<Defense>, studentId: int)
  {
    exists i :: 0 <= i < |defenses| && defenses[i].studentId == studentId
  }

  /** Everything record_defense demands before it commits. */
  predicate DefenseAdmissible(users: seq<User>, defenses: seq<Defense>, studentId: int, date: string,
                              committee: seq<MemberInput>, finalScore: Option<ScoreArg>, recordedBy: Option<int>)
  {
    && HasRole(GetUserById(users, studentId), Student)
    && !HasDefense(defenses, studentId)
    && ParseDate(Trim(date)).Some?
    && Committee(users, committee).Ok?
    && JuryCheck(users, defenses, Committee(users, committee).value).Pass?
    && ScoreValue(finalScore).Ok?
    && (recordedBy.Some? ==> IsUser(users, recordedBy.value))
  }

  /** What record_defense does with a store, in the order it checks: the
      student, an existing defense, the date, the committee, the capacities,
      the score and the recorder; then the new record. */
  function NewDefense(users: seq<User>, defenses: seq<Defense>, studentId: int, date: string,
                      committee: seq<MemberInput>, finalScore: Option<ScoreArg>, notes: Option<string>,
                      recordedBy: Option<int>, now: Time): (r: Result<Defense>)
    ensures r.Ok? <==> DefenseAdmissible(users, defenses, studentId, date, committee, finalScore, recordedBy)
    ensures !HasRole(GetUserById(users, studentId), Student) ==> r == Err(NotFound)
    ensures HasRole(GetUserById(users, studentId), Student) && HasDefense(defenses, studentId) ==> r == Err(Conflict)
    ensures r.Ok? ==>
              && r.value.id == NextDefenseId(defenses)
              && r.value.studentId == studentId
              && r.value.date == Trim(date)
              && r.value.committee == Committee(users, committee).value
              && ScoreInRange(r.value.finalScore)
              && r.value.finalScore == (if finalScore.None? then None else Some(finalScore.value.value))
              && r.value.notes == notes && r.value.recordedBy == recordedBy && r.value.recordedAt == now
  {
    if !HasRole(GetUserById(users, studentId), Student) then Err(NotFound)
    else if HasDefense(defenses, studentId) then Err(Conflict)
    else match ParseDate(Trim(date))
      case None => Err(Validation)
      case Some(day) =>
        FormatParse(Trim(date));
        match Committee(users, committee)
        case Err(e) => Err(e)
        case Ok(ms) =>
          match JuryCheck(users, defenses, ms)
          case Fail(e) => Err(e)
          case Pass =>
            match ScoreValue(finalScore)
            case Err(e) => Err(e)
            case Ok(score) =>
              if recordedBy.Some? && !IsUser(users, recordedBy.value) then Err(NotFound)
              else Ok(Defense(NextDefenseId(defenses), studentId, FormatDate(day), ms, score, notes, recordedBy, now))
  }

  /** record_defense. */
  method RecordDefense(db: Store, studentId: int, date: string, committee: seq<MemberInput>,
                       finalScore: Option<ScoreArg>, notes: Option<string>, recordedBy: Option<int>, now: Time)
    returns (r: Result<Defense>)
    modifies db
    ensures db.users == old(db.users) && db.files == old(db.files) && db.messages == old(db.messages)
    ensures r == NewDefense(old(db.users), old(db.defenses), studentId, date, committee, finalScore, notes, recordedBy, now)
    ensures r.Err? ==> db.defenses == old(db.defenses)
    ensures r.Ok? ==> db.defenses == old(db.defenses) + [r.value]
    ensures old(db.Valid()) ==> db.Valid()
    ensures old(db.Valid() && db.CapacitiesRespected()) ==> db.CapacitiesRespected()
  {
    var student := GetUserById(db.users, studentId);
    if student.None? || student.value.role != Student {
      return Err(NotFound);
    }
    var taken := HasDefenseScan(db.defenses, studentId);
    if taken {
      return Err(Conflict);
    }
    var day := ParseDate(Trim(date));
    if day.None? {
      return Err(Validation);
    }
    var ms := NormalizeCommittee(db.users, committee);
    if ms.Err? {
      return Err(ms.error);
    }
    var fits := CheckJuryCapacity(db.users, db.defenses, ms.value);
    if fits.Fail? {
      return Err(fits.error);
    }
    var score := ScoreValue(finalScore);
    if score.Err? {
      return Err(score.error);
    }
    if recordedBy.Some? && !IsUser(db.users, recordedBy.value) {
      return Err(NotFound);
    }
    var d := Defense(NextDefenseId(db.defenses), studentId, FormatDate(day.value), ms.value, score.value,
                     notes, recordedBy, now);
    AppendDefense(db, d);
    r := Ok(d);
  }

  /** record_defense's scan for an earlier defense of the student. */
  method HasDefenseScan(defenses: seq<Defense>, studentId: int) returns (found: bool)
    ensures found <==> HasDefense(defenses, studentId)
  {
    var i := 0;
    while i < |defenses|
      invariant 0 <= i <= |defenses|
      invariant forall j :: 0 <= j < i ==> defenses[j].studentId != studentId
    {
      if defenses[i].studentId == studentId {
        return true;
      }
      i := i + 1;
    }
    return false;
  }

  /** The append that ends record_defense, for a record that passed its checks. */
  method AppendDefense(db: Store, d: Defense)
    requires HasRole(GetUserById(db.users, d.studentId), Student)
    requires !HasDefense(db.defenses, d.studentId)
    requires forall j :: 0 <= j < |d.committee| ==> MemberResolves(db.users, d.committee[j])
    requires JuryCheck(db.users, db.defenses, d.committee).Pass?
    requires ScoreInRange(d.finalScore)
    requires d.id == NextDefenseId(db.defenses)
    modifies db
    ensures db.defenses == old(db.defenses) + [d]
    ensures db.users == old(db.users) && db.files == old(db.files) && db.messages == old(db.messages)
    ensures old(db.Valid()) ==> db.Valid()
    ensures old(db.Valid() && db.CapacitiesRespected()) ==> db.CapacitiesRespected()
  {
    NewDefenseKeepsRules(db.users, db.files, db.messages, db.defenses, d);
    db.defenses := db.defenses + [d];
  }

  /** Under distinct user ids, SeatFits for a teacher's id reads that teacher's capacity. */
  lemma SeatFitsAt(users: seq<User>, defenses: seq<Defense>, committee: seq<Member>, k: nat)
    requires DistinctIds(users, UserId) && k < |users|
    requires SeatFits(users, defenses, committee, users[k].id)
    ensures JuryCount(defenses, users[k].id) + SeatCount(committee, users[k].id) <= JuryCapacity(users[k])
  {
    FirstIdMatch(users, k, users[k].id);
  }

  /** A teacher seated in a committee that passed the check fits its capacity. */
  lemma SeatedTeacherFits(users: seq<User>, defenses: seq<Defense>, committee: seq<Member>, k: nat)
    requires DistinctIds(users, UserId) && k < |users|
    requires JuryCheck(users, defenses, committee).Pass?
    requires SeatCount(committee, users[k].id) > 0
    ensures JuryCount(defenses, users[k].id) + SeatCount(committee, users[k].id) <= JuryCapacity(users[k])
  {
    SeatCountWitness(committee, users[k].id);
    var j :| 0 <= j < |committee| && Seats(committee[j], users[k].id);
    assert Counted(committee[j]);
    SeatFitsAt(users, defenses, committee, k);
  }

  /** Appending a record that record_defense admitted keeps every rule and the jury bound. */
  lemma NewDefenseKeepsRules(users: seq<User>, files: seq<FileRecord>, messages: seq<Message>,
                             defenses: seq<Defense>, d: Defense)
    requires HasRole(GetUserById(users, d.studentId), Student)
    requires !HasDefense(defenses, d.studentId)
    requires forall j :: 0 <= j < |d.committee| ==> MemberResolves(users, d.committee[j])
    requires JuryCheck(users, defenses, d.committee).Pass?
    requires ScoreInRange(d.finalScore)
    requires d.id == NextDefenseId(defenses)
    ensures DocumentValid(users, files, messages, defenses) ==> DocumentValid(users, files, messages, defenses + [d])
    ensures DocumentValid(users, files, messages, defenses) && JuryBound(users, defenses) ==>
              JuryBound(users, defenses + [d])
  {
    var defs' := defenses + [d];
    if DocumentValid(users, files, messages, defenses) {
      AllocatedIdKeepsDistinct(defenses, DefenseId, d);
      var s := UserIndex(users, d.studentId).value;
      assert IsStudent(users, d.studentId) by {
        assert users[s].id == d.studentId && users[s].role == Student;
      }
      assert DefendersResolve(users, defs');
      assert OneDefensePerStudent(defs');
      assert CommitteesResolve(users, defs');
      assert ScoresInRange(defs');
      if JuryBound(users, defenses) {
        forall k | 0 <= k < |users| && users[k].role == Teacher
          ensures JuryCount(defs', users[k].id) <= JuryCapacity(users[k])
        {
          JuryCountAppend(defenses, d, users[k].id);
          if SeatCount(d.committee, users[k].id) > 0 {
            SeatedTeacherFits(users, defenses, d.committee, k);
          }
        }
      }
    }
  }

  /** Each student has at most one defense after any sequence of successful records. */
  lemma RecordedStudentsDistinct(defenses: seq<Defense>, d: Defense)
    requires OneDefensePerStudent(defenses)
    requires !HasDefense(defenses, d.studentId)
    ensures OneDefensePerStudent(defenses + [d])
  {
  }

  // ---------------------------------------------------------------------
  // Queries.

  /** The sort key of list_defenses: the parsed date, or date.min when the
      stored text does not parse. */
  function DefenseDateKey(d: Defense): int
  {
    match ParseDate(Trim(d.date))
    case Some(day) => DateKey(day)
    case None => DateKey(MinDate)
  }

  /** list_defenses: every defense, newest date first, in a stable order. */
  function ListDefenses(defenses: seq<Defense>): (r: seq<Defense>)
    ensures multiset(r) == multiset(defenses)
    ensures SortedDesc(r, DefenseDateKey)
  {
    SortDesc(defenses, DefenseDateKey)
  }

  /** Of two listed defenses with readable dates, the earlier one in the list
      is not earlier in the calendar, and an unreadable date never comes
      before a readable one. */
  lemma ListDefensesChronological(defenses: seq<Defense>, i: nat, j: nat)
    requires i < j < |ListDefenses(defenses)|
    ensures var r := ListDefenses(defenses);
            ParseDate(Trim(r[i].date)).Some? && ParseDate(Trim(r[j].date)).Some? ==>
              !Before(ParseDate(Trim(r[i].date)).value, ParseDate(Trim(r[j].date)).value)
    ensures var r := ListDefenses(defenses);
            ParseDate(Trim(r[i].date)).None? && ParseDate(Trim(r[j].date)).Some? ==>
              ParseDate(Trim(r[j].date)).value == MinDate
  {
    var r := ListDefenses(defenses);
    assert DefenseDateKey(r[i]) >= DefenseDateKey(r[j]);
    var pi := ParseDate(Trim(r[i].date));
    var pj := ParseDate(Trim(r[j].date));
    if pi.Some? && pj.Some? {
      DateKeyOrder(pi.value, pj.value);
    }
    if pi.None? && pj.Some? {
      MinDateIsLeast(pj.value);
      DateKeyOrder(pj.value, MinDate);
    }
  }

  function DefenseIndex(defenses: seq<Defense>, id: int): (r: Option<nat>)
    ensures r.Some? ==> r.value < |defenses| && defenses[r.value].id == id
    ensures r.Some? ==> forall j :: 0 <= j < r.value ==> defenses[j].id != id
    ensures r.None? ==> forall j :: 0 <= j < |defenses| ==> defenses[j].id != id
  {
    FindFirst(defenses, (d: Defense) => d.id == id)
  }

  /** get_defense_by_id as intended: the first defense with that id, or none. */
  function GetDefenseById(defenses: seq<Defense>, id: int): (r: Option<Defense>)
    ensures r.Some? ==> r.value in defenses && r.value.id == id
    ensures r.Some? ==> r.value == defenses[DefenseIndex(defenses, id).value]
    ensures r.None? <==> forall j :: 0 <= j < |defenses| ==> defenses[j].id != id
  {
    match DefenseIndex(defenses, id)
    case None => None
    case Some(k) => Some(defenses[k])
  }

  /** get_defense_by_id as written: the `return None` sits inside the loop,
      so only the first stored defense is ever examined. */
  function GetDefenseByIdAsWritten(defenses: seq<Defense>, id: int): (r: Option<Defense>)
    ensures r.Some? ==> defenses != [] && r.value == defenses[0] && r.value.id == id
  {
    if defenses != [] && defenses[0].id == id then Some(defenses[0]) else None
  }

  /** With two defenses, the second cannot be found as written but is found as intended. */
  lemma GetDefenseByIdMissesLater(a: Defense, b: Defense)
    requires a.id != b.id
    ensures GetDefenseByIdAsWritten([a, b], b.id) == None
    ensures GetDefenseById([a, b], b.id) == Some(b)
  {
    assert [a, b][1] == b;
  }

  /** list_defenses_by_student: that student's defenses in stored order. */
  function ListDefensesByStudent(defenses: seq<Defense>, studentId: int): (r: seq<Defense>)
    ensures |r| <= |defenses|
    ensures forall d :: d in r <==> d in defenses && d.studentId == studentId
  {
    if defenses == [] then []
    else
      var rest := ListDefensesByStudent(defenses[..|defenses| - 1], studentId);
      var last := defenses[|defenses| - 1];
      assert defenses == defenses[..|defenses| - 1] + [last];
      if last.studentId == studentId then rest + [last] else rest
  }

  /** Under the one-defense-per-student rule, a student has at most one defense listed. */
  lemma {:induction false} AtMostOneDefenseListed(defenses: seq<Defense>, studentId: int)
    requires OneDefensePerStudent(defenses)
    ensures |ListDefensesByStudent(defenses, studentId)| <= 1
    ensures |ListDefensesByStudent(defenses, studentId)| == 1 <==> HasDefense(defenses, studentId)
  {
    if defenses != [] {
      var n := |defenses| - 1;
      var init := defenses[..n];
      assert OneDefensePerStudent(init) by {
        forall i, j | 0 <= i < j < |init| ensures init[i].studentId != init[j].studentId {
          assert defenses[i].studentId != defenses[j].studentId;
        }
      }
      AtMostOneDefenseListed(init, studentId);
      var rest := ListDefensesByStudent(init, studentId);
      if defenses[n].studentId == studentId {
        if |rest| == 1 {
          assert false;
        }
      } else {
        assert HasDefense(defenses, studentId) <==> HasDefense(init, studentId) by {
          if HasDefense(defenses, studentId) {
            var i :| 0 <= i < |defenses| && defenses[i].studentId == studentId;
            assert init[i] == defenses[i];
          }
          if HasDefense(init, studentId) {
            var i :| 0 <= i < |init| && init[i].studentId == studentId;
            assert defenses[i] == init[i];
          }
        }
      }
    }
  }

  // ---------------------------------------------------------------------
  // Amendment.

  /** What update_defense makes of the found record: a supplied committee is
      normalised and capacity-checked against counts that still include the
      record's old committee; a supplied score is checked; supplied notes
      replace the old. Nothing is stored unless every check passes. */
  function Amend(users: seq<User>, defenses: seq<Defense>, d: Defense, finalScore: Option<ScoreArg>,
                 notes: Option<string>, committee: Option<seq<MemberInput>>): (r: Result<Defense>)
    ensures r.Ok? <==>
              (committee.Some? ==> Committee(users, committee.value).Ok? &&
                                   JuryCheck(users, defenses, Committee(users, committee.value).value).Pass?) &&
              ScoreValue(finalScore).Ok?
    ensures r.Ok? ==>
              && r.value.id == d.id && r.value.studentId == d.studentId && r.value.date == d.date
              && r.value.recordedBy == d.recordedBy && r.value.recordedAt == d.recordedAt
              && r.value.committee == (if committee.Some? then Committee(users, committee.value).value else d.committee)
              && r.value.finalScore == (if finalScore.Some? then Some(finalScore.value.value) else d.finalScore)
              && r.value.notes == (if notes.Some? then notes else d.notes)
  {
    var newCommittee: Result<seq<Member>> :=
      if committee.None? then Ok(d.committee)
      else match Committee(users, committee.value)
        case Err(e) => Err(e)
        case Ok(ms) => if JuryCheck(users, defenses, ms).Fail? then Err(JuryCheck(users, defenses, ms).error) else Ok(ms);
    if newCommittee.Err? then Err(newCommittee.error)
    else match ScoreValue(finalScore)
      case Err(e) => Err(e)
      case Ok(score) =>
        Ok(d.(committee := newCommittee.value,
              finalScore := if finalScore.Some? then score else d.finalScore,
              notes := if notes.Some? then notes else d.notes))
  }

  /** update_defense as intended. */
  method UpdateDefense(db: Store, defenseId: int, finalScore: Option<ScoreArg>, notes: Option<string>,
                       committee: Option<seq<MemberInput>>)
    returns (r: Result<Defense>)
    modifies db
    ensures db.users == old(db.users) && db.files == old(db.files) && db.messages == old(db.messages)
    ensures r.Err? ==> db.defenses == old(db.defenses)
    ensures DefenseIndex(old(db.defenses), defenseId).None? ==> r == Err(NotFound)
    ensures DefenseIndex(old(db.defenses), defenseId).Some? ==>
              var k := DefenseIndex(old(db.defenses), defenseId).value;
              && r == Amend(old(db.users), old(db.defenses), old(db.defenses)[k], finalScore, notes, committee)
              && (r.Ok? ==> db.defenses == old(db.defenses)[k := r.value])
    ensures old(db.Valid()) ==> db.Valid()
    ensures old(db.Valid() && db.CapacitiesRespected()) ==> db.CapacitiesRespected()
  {
    var k := 0;
    while k < |db.defenses|
      invariant 0 <= k <= |db.defenses|
      invariant forall j :: 0 <= j < k ==> db.defenses[j].id != defenseId
    {
      if db.defenses[k].id == defenseId {
        break;
      }
      k := k + 1;
    }
    if k == |db.defenses| {
      return Err(NotFound);
    }
    var found := db.defenses[k];
    var newCommittee := found.committee;
    if committee.Some? {
      var ms := NormalizeCommittee(db.users, committee.value);
      if ms.Err? {
        return Err(ms.error);
      }
      var fits := CheckJuryCapacity(db.users, db.defenses, ms.value);
      if fits.Fail? {
        return Err(fits.error);
      }
      newCommittee := ms.value;
    }
    var score := ScoreValue(finalScore);
    if score.Err? {
      return Err(score.error);
    }
    var updated := found.(committee := newCommittee,
                          finalScore := if finalScore.Some? then score.value else found.finalScore,
                          notes := if notes.Some? then notes else found.notes);
    ReplaceDefense(db, k, updated);
    r := Ok(updated);
  }

  /** The store update of update_defense: the amended record takes the
      place of the stored one and the document rules survive. */
  method ReplaceDefense(db: Store, k: nat, d: Defense)
    requires k < |db.defenses|
    requires d.id == db.defenses[k].id && d.studentId == db.defenses[k].studentId
    requires ScoreInRange(d.finalScore) || d.finalScore == db.defenses[k].finalScore
    requires d.committee == db.defenses[k].committee ||
             ((forall j :: 0 <= j < |d.committee| ==> MemberResolves(db.users, d.committee[j])) &&
              JuryCheck(db.users, db.defenses, d.committee).Pass?)
    modifies db
    ensures db.defenses == old(db.defenses)[k := d]
    ensures db.users == old(db.users) && db.files == old(db.files) && db.messages == old(db.messages)
    ensures old(db.Valid()) ==> db.Valid()
    ensures old(db.Valid() && db.CapacitiesRespected()) ==> db.CapacitiesRespected()
  {
    AmendKeepsRules(db.users, db.files, db.messages, db.defenses, k, d);
    db.defenses := db.defenses[k := d];
  }

  /** Replacing one defense by an amendment keeps every rule and the jury bound. */
  lemma AmendKeepsRules(users: seq<User>, files: seq<FileRecord>, messages: seq<Message>,
                        defenses: seq<Defense>, k: nat, d: Defense)
    requires k < |defenses|
    requires d.id == defenses[k].id && d.studentId == defenses[k].studentId
    requires ScoreInRange(d.finalScore) || d.finalScore == defenses[k].finalScore
    requires d.committee == defenses[k].committee ||
             ((forall j :: 0 <= j < |d.committee| ==> MemberResolves(users, d.committee[j])) &&
              JuryCheck(users, defenses, d.committee).Pass?)
    ensures DocumentValid(users, files, messages, defenses) ==> DocumentValid(users, files, messages, defenses[k := d])
    ensures DocumentValid(users, files, messages, defenses) && JuryBound(users, defenses) ==>
              JuryBound(users, defenses[k := d])
  {
    var defs' := defenses[k := d];
    if DocumentValid(users, files, messages, defenses) {
      assert DistinctIds(defs', DefenseId) by {
        forall i, j | 0 <= i < j < |defs'| ensures DefenseId(defs'[i]) != DefenseId(defs'[j]) {
          assert DefenseId(defenses[i]) != DefenseId(defenses[j]);
        }
      }
      assert OneDefensePerStudent(defs') by {
        forall i, j | 0 <= i < j < |defs'| ensures defs'[i].studentId != defs'[j].studentId {
          assert defenses[i].studentId != defenses[j].studentId;
        }
      }
      assert CommitteesResolve(users, defs') by {
        forall i, j | 0 <= i < |defs'| && 0 <= j < |defs'[i].committee|
          ensures MemberResolves(users, defs'[i].committee[j])
        {
          if i != k || d.committee == defenses[k].committee {
            assert MemberResolves(users, defenses[i].committee[j]);
          }
        }
      }
      assert DefendersResolve(users, defs');
      assert ScoresInRange(defs');
      if JuryBound(users, defenses) {
        forall m | 0 <= m < |users| && users[m].role == Teacher
          ensures JuryCount(defs', users[m].id) <= JuryCapacity(users[m])
        {
          JuryCountUpdate(defenses, k, d, users[m].id);
          if d.committee != defenses[k].committee && SeatCount(d.committee, users[m].id) > 0 {
            SeatedTeacherFits(users, defenses, d.committee, m);
          }
        }
      }
    }
  }

  // ---------------------------------------------------------------------
  // The code as written.

  /** record_defense as written: the score check, the recorder check and the
      append sit inside the per-teacher loop, so only the first counted
      teacher's capacity is checked before the record is stored, and a
      committee with no counted teacher stores nothing and returns none. */
  function NewDefenseAsWritten(users: seq<User>, defenses: seq<Defense>, studentId: int, date: string,
                               committee: seq<MemberInput>, finalScore: Option<ScoreArg>, notes: Option<string>,
                               recordedBy: Option<int>, now: Time): (r: Result<Option<Defense>>)
    ensures r.Ok? && r.value.Some? ==> Committee(users, committee).Ok? && r.value.value.committee == Committee(users, committee).value
    ensures r == Ok(None) ==> Committee(users, committee).Ok? &&
                              forall j :: 0 <= j < |Committee(users, committee).value| ==>
                                !Counted(Committee(users, committee).value[j])
  {
    if !HasRole(GetUserById(users, studentId), Student) then Err(NotFound)
    else if HasDefense(defenses, studentId) then Err(Conflict)
    else match ParseDate(Trim(date))
      case None => Err(Validation)
      case Some(day) =>
        match Committee(users, committee)
        case Err(e) => Err(e)
        case Ok(ms) =>
          match FindFirst(ms, Counted)
          case None => Ok(None)
          case Some(i) =>
            var t := ms[i].id.value;
            if !IsUser(users, t) then Err(NotFound)
            else if !SeatFits(users, defenses, ms, t) then Err(CapacityExceeded)
            else match ScoreValue(finalScore)
              case Err(e) => Err(e)
              case Ok(score) =>
                if recordedBy.Some? && !IsUser(users, recordedBy.value) then Err(NotFound)
                else Ok(Some(Defense(NextDefenseId(defenses), studentId, FormatDate(day), ms, score, notes, recordedBy, now)))
  }

  // A store with two teachers, A (id 1, ten jury seats) and B (id 2, none),
  // and a student C (id 3); a committee naming A and then B.
  const SampleCredentials: Credentials := Credentials("s", "h", 1)
  const SampleTeacherA: User := User(1, "A", Teacher, None, None, SampleCredentials, 0, None, true, [], Some(5), Some(10))
  const SampleTeacherB: User := User(2, "B", Teacher, None, None, SampleCredentials, 0, None, true, [], Some(5), Some(0))
  const SampleStudent: User := User(3, "C", Student, None, None, SampleCredentials, 0, None, true, [], None, None)
  const SampleUsers: seq<User> := [SampleTeacherA, SampleTeacherB, SampleStudent]
  const SampleItems: seq<MemberInput> := [MemberId(1), MemberId(2)]
  const SampleCommittee: seq<Member> := [Member(Some(1), "A", TeacherRole), Member(Some(2), "B", TeacherRole)]

  lemma SampleLookups()
    ensures GetUserById(SampleUsers, 1) == Some(SampleTeacherA)
    ensures GetUserById(SampleUsers, 2) == Some(SampleTeacherB)
    ensures GetUserById(SampleUsers, 3) == Some(SampleStudent)
  {
    var users := SampleUsers;
    assert users[0].id == 1 && users[1].id == 2 && users[2].id == 3;
  }

  lemma SampleCommitteeNormalized()
    ensures Committee(SampleUsers, SampleItems) == Ok(SampleCommittee)
  {
    SampleLookups();
    var users := SampleUsers;
    var items := SampleItems;
    var m1 := SampleCommittee[0];
    var m2 := SampleCommittee[1];
    assert NormalizeEntry(users, MemberId(1)) == Ok(Some(m1));
    assert NormalizeEntry(users, MemberId(2)) == Ok(Some(m2));
    var first := [MemberId(1)];
    assert first[..|first| - 1] == [] && first[|first| - 1] == MemberId(1);
    assert NormalizedEntries(users, first[..|first| - 1]) == Ok([]);
    assert NormalizedEntries(users, first) == Ok([] + [m1]);
    assert [] + [m1] == [m1];
    assert items[..|items| - 1] == first && items[|items| - 1] == MemberId(2);
    assert NormalizedEntries(users, items[..|items| - 1]) == Ok([m1]);
    assert NormalizedEntries(users, items) == Ok([m1] + [m2]);
    assert [m1] + [m2] == SampleCommittee;
    assert SampleCommittee[0].role == TeacherRole;
    assert HasTeacher(SampleCommittee);
  }

  lemma SampleSeats()
    ensures JuryCheck(SampleUsers, [], SampleCommittee) == Fail(CapacityExceeded)
    ensures FindFirst(SampleCommittee, Counted) == Some(0)
    ensures SeatFits(SampleUsers, [], SampleCommittee, 1)
  {
    SampleLookups();
    var ms := SampleCommittee;
    assert ms[..|ms| - 1] == [ms[0]] && [ms[0]][..0] == [];
    assert SeatCount(ms, 1) == 1;
    assert SeatCount(ms, 2) == 1;
    assert !Overloads(SampleUsers, [], ms, ms[0]);
    assert Overloads(SampleUsers, [], ms, ms[1]);
    assert FindFirst(ms, (m: Member) => Overloads(SampleUsers, [], ms, m)) == Some(1);
  }

  /** As intended, the sample committee is refused: B has no free seat. */
  lemma SampleRefused(date: string)
    requires ParseDate(Trim(date)).Some?
    ensures NewDefense(SampleUsers, [], 3, date, SampleItems, None, None, None, 0) == Err(CapacityExceeded)
  {
    SampleLookups();
    SampleCommitteeNormalized();
    SampleSeats();
  }

  /** As written, the sample committee is stored: only A is checked. */
  lemma SampleStoredAsWritten(date: string)
    requires ParseDate(Trim(date)).Some?
    ensures NewDefenseAsWritten(SampleUsers, [], 3, date, SampleItems, None, None, None, 0).Ok?
    ensures NewDefenseAsWritten(SampleUsers, [], 3, date, SampleItems, None, None, None, 0).value.Some?
    ensures NewDefenseAsWritten(SampleUsers, [], 3, date, SampleItems, None, None, None, 0).value.value.committee
            == SampleCommittee
  {
    SampleLookups();
    SampleCommitteeNormalized();
    SampleSeats();
    assert HasRole(GetUserById(SampleUsers, 3), Student) && !HasDefense([], 3);
    assert SampleCommittee[0].id.value == 1 && IsUser(SampleUsers, 1);
  }

  /** With no defense stored, the sample store is within every jury capacity. */
  lemma SampleWithinBound()
    ensures JuryBound(SampleUsers, [])
  {
    var users := SampleUsers;
    assert JuryCapacity(users[0]) == 10 && JuryCapacity(users[1]) == 0;
  }

  /** Any defense seating the sample committee puts B over its jury capacity. */
  lemma SampleOverloadsB(d: Defense)
    requires d.committee == SampleCommittee
    ensures !JuryBound(SampleUsers, [d])
  {
    assert JuryCount([d], 2) == 1 by {
      assert [d][..0] == [];
      assert SeatCount(SampleCommittee, 2) == 1 by {
        var ms := SampleCommittee;
        assert ms[..|ms| - 1] == [ms[0]] && [ms[0]][..0] == [];
      }
    }
    assert SampleUsers[1].role == Teacher && JuryCapacity(SampleUsers[1]) == 0;
  }

  /** A committee of two teachers where the second has no free jury seat:
      as written the defense is stored and the jury bound breaks; as intended
      it is refused. */
  lemma SecondTeacherUnchecked(date: string)
    requires ParseDate(Trim(date)).Some?
    ensures NewDefense(SampleUsers, [], 3, date, SampleItems, None, None, None, 0) == Err(CapacityExceeded)
    ensures NewDefenseAsWritten(SampleUsers, [], 3, date, SampleItems, None, None, None, 0).Ok?
    ensures NewDefenseAsWritten(SampleUsers, [], 3, date, SampleItems, None, None, None, 0).value.Some?
    ensures JuryBound(SampleUsers, [])
    ensures !JuryBound(SampleUsers, [NewDefenseAsWritten(SampleUsers, [], 3, date, SampleItems, None, None, None, 0).value.value])
  {
    SampleRefused(date);
    SampleStoredAsWritten(date);
    SampleWithinBound();
    SampleOverloadsB(NewDefenseAsWritten(SampleUsers, [], 3, date, SampleItems, None, None, None, 0).value.value);
  }

  /** update_defense as written: everything after the lookup sits inside the
      committee branch, so without a committee nothing is applied; the
      committee is assigned inside the per-teacher loop (so a committee with
      no counted teacher is dropped); the score is assigned only in the
      branch where float() failed, where the unbound local raises instead;
      notes are applied and the record saved only when a score is supplied.
      Some(record) is what gets stored; None means nothing was stored. */
  function AmendAsWritten(users: seq<User>, defenses: seq<Defense>, d: Defense, finalScore: Option<ScoreArg>,
                          notes: Option<string>, committee: Option<seq<MemberInput>>): (r: Result<Option<Defense>>)
    ensures r.Ok? && r.value.Some? ==> r.value.value.finalScore == d.finalScore
    ensures committee.None? ==> r == Ok(None)
    ensures finalScore.None? ==> r.Err? || r == Ok(None)
  {
    if committee.None? then Ok(None)
    else
    var newCommittee: Result<seq<Member>> :=
      match Committee(users, committee.value)
        case Err(e) => Err(e)
        case Ok(ms) =>
          if JuryCheck(users, defenses, ms).Fail? then Err(JuryCheck(users, defenses, ms).error)
          else if exists j :: 0 <= j < |ms| && Counted(ms[j]) then Ok(ms)
          else Ok(d.committee);
    if newCommittee.Err? then Err(newCommittee.error)
    else match finalScore
      case None => Ok(None)
      case Some(NotNumeric) => Err(Validation)
      case Some(Numeric(_)) =>
        Ok(Some(d.(committee := newCommittee.value, notes := if notes.Some? then notes else d.notes)))
  }

  /** A score or notes supplied to update_defense without a committee are
      dropped as written; as intended both are stored. */
  lemma AmendDropsScoreAndNotes(users: seq<User>, defenses: seq<Defense>, d: Defense)
    ensures AmendAsWritten(users, defenses, d, Some(Numeric(15.0)), None, None) == Ok(None)
    ensures Amend(users, defenses, d, Some(Numeric(15.0)), None, None) == Ok(d.(finalScore := Some(15.0)))
    ensures AmendAsWritten(users, defenses, d, None, Some("late"), None) == Ok(None)
    ensures Amend(users, defenses, d, None, Some("late"), None) == Ok(d.(notes := Some("late")))
  {
  }
}
