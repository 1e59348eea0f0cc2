// The message log (message_system.py): sending with text and participant
// validation, listing and searching with filters, marking read, and the
// deletion that is always refused. All operations work on one collection,
// `messages`; the source writes and reads a "message" key in some places
// and "messages" in others, and the model follows the evident intent of a
// single log. Instants are Time values: the source's ISO timestamp parsing
// is not part of this model.

module MessageLog {
  import opened Common
  import opened Text
  import opened Schema
  import opened Accounts

  const MaxMessageLength: int := 20000

  /** _next_messsage_id. */
  function NextMessageId(messages: seq<Message>): (r: int)
    ensures messages == [] ==> r == 1
    ensures forall k :: 0 <= k < |messages| ==> messages[k].id < r
    ensures messages != [] ==> exists k :: 0 <= k < |messages| && messages[k].id == r - 1
  {
    NextId(messages, MessageId)
  }

  /** The text checks of send_message, made before the store is read. */
  function TextCheck(text: string): (r: Outcome)
    ensures r.Pass? <==> !IsBlank(text) && |text| <= MaxMessageLength
    ensures r.Pass? ==> 0 < |text| <= MaxMessageLength
    ensures r.Fail? ==> r.error == Validation
  {
    if IsBlank(text) then Fail(Validation)
    else if |text| > MaxMessageLength then Fail(Validation)
    else Pass
  }

  /** A user as send_message accepts it: present and active. */
  predicate ActiveUser(users: seq<User>, id: int)
  {
    GetUserById(users, id).Some? && GetUserById(users, id).value.isActive
  }

  /** The participant checks of send_message, in the source's order: sender
      and receiver must exist, then both must be active. */
  function ParticipantCheck(users: seq<User>, senderId: int, receiverId: int): (r: Outcome)
    ensures r.Pass? <==> ActiveUser(users, senderId) && ActiveUser(users, receiverId)
    ensures !IsUser(users, senderId) || !IsUser(users, receiverId) ==> r == Fail(NotFound)
    ensures IsUser(users, senderId) && IsUser(users, receiverId) && r.Fail? ==> r.error == Validation
  {
    match (GetUserById(users, senderId), GetUserById(users, receiverId))
    case (None, _) => Fail(NotFound)
    case (_, None) => Fail(NotFound)
    case (Some(s), Some(t)) =>
      if !s.isActive then Fail(Validation)
      else if !t.isActive then Fail(Validation)
      else Pass
  }

  /** send_message: on success one unread message is appended under the next id. */
  method SendMessage(db: Store, senderId: int, receiverId: int, text: string, now: Time)
    returns (r: Result<Message>)
    modifies db
    ensures db.users == old(db.users) && db.files == old(db.files) && db.defenses == old(db.defenses)
    ensures TextCheck(text).Fail? ==> r == Err(Validation)
    ensures TextCheck(text).Pass? && ParticipantCheck(old(db.users), senderId, receiverId).Fail? ==>
              r == Err(ParticipantCheck(old(db.users), senderId, receiverId).error)
    ensures r.Ok? <==> TextCheck(text).Pass? && ParticipantCheck(old(db.users), senderId, receiverId).Pass?
    ensures r.Err? ==> db.messages == old(db.messages)
    ensures r.Ok? ==>
              && db.messages == old(db.messages) + [r.value]
              && r.value.id == NextMessageId(old(db.messages))
              && r.value.senderId == senderId && r.value.receiverId == receiverId && r.value.text == text
              && r.value.createdAt == now && !r.value.isRead && r.value.readAt.None?
    ensures old(db.Valid()) ==> db.Valid()
    ensures old(db.Valid() && db.CapacitiesRespected()) ==> db.CapacitiesRespected()
  {
    var textOk := TextCheck(text);
    if textOk.Fail? {
      return Err(Validation);
    }
    var participants := ParticipantCheck(db.users, senderId, receiverId);
    if participants.Fail? {
      return Err(participants.error);
    }
    var m := Message(NextMessageId(db.messages), senderId, receiverId, text, now, false, None);
    if db.Valid() {
      AllocatedIdKeepsDistinct(db.messages, MessageId, m);
    }
    db.messages := db.messages + [m];
    r := Ok(m);
  }

  function CreatedAt(m: Message): int
  {
    m.createdAt
  }

  // ---------------------------------------------------------------------
  // Listing.

  /** The user is the sender or the receiver (any message when no user is given). */
  predicate Involves(m: Message, userId: Option<int>)
  {
    userId.None? || m.senderId == userId.value || m.receiverId == userId.value
  }

  /** Strictly after `since` (any message when none is given). */
  predicate After(m: Message, since: Option<Time>)
  {
    since.None? || m.createdAt > since.value
  }

  /** Strictly before `until` (any message when none is given). */
  predicate Until(m: Message, until: Option<Time>)
  {
    until.None? || m.createdAt < until.value
  }

  /** The messages list_messages keeps, in stored order. */
  function Selected(messages: seq<Message>, userId: Option<int>, since: Option<Time>): (r: seq<Message>)
    ensures |r| <= |messages|
    ensures forall m :: m in r <==> m in messages && Involves(m, userId) && After(m, since)
  {
    if messages == [] then []
    else
      var init := messages[..|messages| - 1];
      var last := messages[|messages| - 1];
      assert messages == init + [last];
      var rest := Selected(init, userId, since);
      if Involves(last, userId) && After(last, since) then rest + [last] else rest
  }

  /** What list_messages returns: the kept messages, newest first, cut to `limit`. */
  function Newest(messages: seq<Message>, userId: Option<int>, limit: Option<int>, since: Option<Time>): (r: seq<Message>)
    ensures r <= SortDesc(Selected(messages, userId, since), CreatedAt)
    ensures var n := |Selected(messages, userId, since)|;
            |r| == if limit.None? then n
                   else if limit.value >= 0 then (if limit.value < n then limit.value else n)
                   else if n + limit.value > 0 then n + limit.value else 0
  {
    var sel := Selected(messages, userId, since);
    var sorted := SortDesc(sel, CreatedAt);
    assert |sorted| == |multiset(sorted)| == |multiset(sel)| == |sel|;
    if limit.None? then sorted else Take(sorted, limit.value)
  }

  /** Every listed message concerns the user and is newer than `since`; the
      list is newest first and no longer than a non-negative limit; without
      a limit every such message is listed. */
  lemma NewestMeaning(messages: seq<Message>, userId: Option<int>, limit: Option<int>, since: Option<Time>)
    ensures var r := Newest(messages, userId, limit, since);
            forall m :: m in r ==> m in messages && Involves(m, userId) && After(m, since)
    ensures SortedDesc(Newest(messages, userId, limit, since), CreatedAt)
    ensures limit.Some? && limit.value >= 0 ==> |Newest(messages, userId, limit, since)| <= limit.value
    ensures limit.Some? && limit.value >= 0 ==>
              |Newest(messages, userId, limit, since)| ==
              if limit.value < |Selected(messages, userId, since)| then limit.value else |Selected(messages, userId, since)|
    ensures limit.None? ==> |Newest(messages, userId, limit, since)| == |Selected(messages, userId, since)|
    ensures limit.None? ==>
              forall m :: m in messages && Involves(m, userId) && After(m, since) ==> m in Newest(messages, userId, limit, since)
  {
    var sel := Selected(messages, userId, since);
    var sorted := SortDesc(sel, CreatedAt);
    var r := Newest(messages, userId, limit, since);
    SortedElementsFrom(sel, CreatedAt);
    assert forall i :: 0 <= i < |r| ==> r[i] == sorted[i];
    forall m | m in r ensures m in sorted {
      var i :| 0 <= i < |r| && r[i] == m;
      assert sorted[i] == m;
    }
  }

  /** list_messages, with its filtering loop. */
  method ListMessages(messages: seq<Message>, userId: Option<int>, limit: Option<int>, since: Option<Time>)
    returns (r: seq<Message>)
    ensures r == Newest(messages, userId, limit, since)
    ensures forall m :: m in r ==> m in messages && Involves(m, userId) && After(m, since)
    ensures limit.Some? && limit.value >= 0 ==> |r| <= limit.value
  {
    var results: seq<Message> := [];
    var i := 0;
    while i < |messages|
      invariant 0 <= i <= |messages|
      invariant results == Selected(messages[..i], userId, since)
    {
      assert messages[..i + 1][..i] == messages[..i];
      var m := messages[i];
      if Involves(m, userId) && After(m, since) {
        results := results + [m];
      }
      i := i + 1;
    }
    assert messages[..i] == messages;
    var sorted := SortDesc(results, CreatedAt);
    r := if limit.None? then sorted else Take(sorted, limit.value);
    NewestMeaning(messages, userId, limit, since);
  }

  // ---------------------------------------------------------------------
  // Search.

  /** Every filter of search_message except the text. */
  predicate InWindow(m: Message, senderId: Option<int>, receiverId: Option<int>, since: Option<Time>, until: Option<Time>)
  {
    && (senderId.None? || m.senderId == senderId.value)
    && (receiverId.None? || m.receiverId == receiverId.value)
    && After(m, since)
    && Until(m, until)
  }

  /** The message's normalised text contains the normalised query. */
  predicate MatchesQuery(m: Message, query: string)
  {
    Contains(Lower(m.text), Lower(Trim(query)))
  }

  /** The messages search_message keeps, in stored order. */
  function Found(messages: seq<Message>, query: string, senderId: Option<int>, receiverId: Option<int>,
                 since: Option<Time>, until: Option<Time>): (r: seq<Message>)
    ensures |r| <= |messages|
    ensures forall m :: m in r <==>
              m in messages && InWindow(m, senderId, receiverId, since, until) && MatchesQuery(m, query)
  {
    if messages == [] then []
    else
      var init := messages[..|messages| - 1];
      var last := messages[|messages| - 1];
      assert messages == init + [last];
      var rest := Found(init, query, senderId, receiverId, since, until);
      if InWindow(last, senderId, receiverId, since, until) && MatchesQuery(last, query) then rest + [last] else rest
  }

  /** search_message as intended: a blank query is refused; otherwise every
      matching message, newest first. */
  function SearchResult(messages: seq<Message>, query: string, senderId: Option<int>, receiverId: Option<int>,
                        since: Option<Time>, until: Option<Time>): (r: Result<seq<Message>>)
    ensures r.Err? <==> IsBlank(query)
    ensures r.Err? ==> r.error == Validation
    ensures r.Ok? ==> SortedDesc(r.value, CreatedAt)
    ensures r.Ok? ==> forall m :: m in r.value <==>
              m in messages && InWindow(m, senderId, receiverId, since, until) && MatchesQuery(m, query)
  {
    if IsBlank(query) then Err(Validation)
    else
      var found := Found(messages, query, senderId, receiverId, since, until);
      SortedElementsFrom(found, CreatedAt);
      Ok(SortDesc(found, CreatedAt))
  }

  /** search_message, with its filtering loop. */
  method SearchMessages(messages: seq<Message>, query: string, senderId: Option<int>, receiverId: Option<int>,
                        since: Option<Time>, until: Option<Time>)
    returns (r: Result<seq<Message>>)
    ensures r == SearchResult(messages, query, senderId, receiverId, since, until)
  {
    TrimShape(query);
    if Trim(query) == [] {
      return Err(Validation);
    }
    var results := ScanMatches(messages, query, senderId, receiverId, since, until);
    r := Ok(SortDesc(results, CreatedAt));
  }

  /** The filtering loop of search_message, before the sort. */
  method ScanMatches(messages: seq<Message>, query: string, senderId: Option<int>, receiverId: Option<int>,
                     since: Option<Time>, until: Option<Time>)
    returns (results: seq<Message>)
    ensures results == Found(messages, query, senderId, receiverId, since, until)
  {
    var q := Lower(Trim(query));
    results := [];
    var i := 0;
    while i < |messages|
      invariant 0 <= i <= |messages|
      invariant results == Found(messages[..i], query, senderId, receiverId, since, until)
    {
      var m := messages[i];
      FoundPrefix(messages, i, query, senderId, receiverId, since, until);
      if InWindow(m, senderId, receiverId, since, until) && Contains(Lower(m.text), q) {
        results := results + [m];
      }
      i := i + 1;
    }
    assert messages[..i] == messages;
  }

  /** search_message as written: the sort and the return sit inside the
      loop, so the first message that passes the sender, receiver and time
      filters ends the search (with that message or nothing), and when none
      passes the function falls off its end and returns None. */
  function SearchAsWritten(messages: seq<Message>, query: string, senderId: Option<int>, receiverId: Option<int>,
                           since: Option<Time>, until: Option<Time>): (r: Result<Option<seq<Message>>>)
    ensures r.Err? <==> IsBlank(query)
    ensures r.Ok? && r.value.Some? ==> |r.value.value| <= 1
  {
    if IsBlank(query) then Err(Validation)
    else match FindFirst(messages, (m: Message) => InWindow(m, senderId, receiverId, since, until))
      case None => Ok(None)
      case Some(i) => Ok(Some(if MatchesQuery(messages[i], query) then [messages[i]] else []))
  }

  /** One more stored message is kept exactly when it passes every filter. */
  lemma FoundSnoc(messages: seq<Message>, m: Message, query: string, senderId: Option<int>,
                  receiverId: Option<int>, since: Option<Time>, until: Option<Time>)
    ensures Found(messages + [m], query, senderId, receiverId, since, until) ==
            Found(messages, query, senderId, receiverId, since, until) +
            (if InWindow(m, senderId, receiverId, since, until) && MatchesQuery(m, query) then [m] else [])
  {
    var s := messages + [m];
    assert s[..|s| - 1] == messages;
    assert s[|s| - 1] == m;
  }

  /** Growing the scanned prefix by one message extends the found list by
      that message exactly when it passes every filter. */
  lemma FoundPrefix(messages: seq<Message>, i: nat, query: string, senderId: Option<int>,
                    receiverId: Option<int>, since: Option<Time>, until: Option<Time>)
    requires i < |messages|
    ensures Found(messages[..i + 1], query, senderId, receiverId, since, until) ==
            Found(messages[..i], query, senderId, receiverId, since, until) +
            (if InWindow(messages[i], senderId, receiverId, since, until) && MatchesQuery(messages[i], query)
             then [messages[i]] else [])
  {
    var s := messages[..i + 1];
    assert s[..|s| - 1] == messages[..i];
    assert s[|s| - 1] == messages[i];
  }

  /** Two matching messages are both found, in stored order. */
  lemma FoundBoth(a: Message, b: Message, query: string)
    requires MatchesQuery(a, query) && MatchesQuery(b, query)
    ensures Found([a, b], query, None, None, None, None) == [a, b]
  {
    FoundSnocUnfiltered([], a, query);
    assert [] + [a] == [a];
    FoundSnocUnfiltered([a], b, query);
    assert [a] + [b] == [a, b];
  }

  /** FoundSnoc with no sender, receiver or time filter: only the text decides. */
  lemma FoundSnocUnfiltered(messages: seq<Message>, m: Message, query: string)
    ensures Found(messages + [m], query, None, None, None, None) ==
            Found(messages, query, None, None, None, None) + (if MatchesQuery(m, query) then [m] else [])
  {
    assert InWindow(m, None, None, None, None);
    FoundSnoc(messages, m, query, None, None, None, None);
  }

  /** Two messages that both match: as written only the first is returned,
      as intended both are. */
  lemma SearchStopsAfterFirst(a: Message, b: Message, query: string)
    requires !IsBlank(query)
    requires MatchesQuery(a, query) && MatchesQuery(b, query)
    ensures SearchAsWritten([a, b], query, None, None, None, None) == Ok(Some([a]))
    ensures SearchResult([a, b], query, None, None, None, None).Ok?
    ensures |SearchResult([a, b], query, None, None, None, None).value| == 2
  {
    FoundBoth(a, b, query);
    var sorted := SortDesc([a, b], CreatedAt);
    assert |sorted| == |multiset(sorted)| == |multiset([a, b])| == 2;
  }

  // ---------------------------------------------------------------------
  // Read receipts and deletion.

  /** The message with its read flag set; a message already read keeps its receipt. */
  function MarkedRead(m: Message, now: Time): (r: Message)
    ensures r.isRead
    ensures r.id == m.id && r.senderId == m.senderId && r.receiverId == m.receiverId
    ensures r.text == m.text && r.createdAt == m.createdAt
    ensures m.isRead ==> r == m
    ensures !m.isRead ==> r.readAt == Some(now)
  {
    if m.isRead then m else m.(isRead := true, readAt := Some(now))
  }

  function MessageIndex(messages: seq<Message>, id: int): (r: Option<nat>)
    ensures r.Some? ==> r.value < |messages| && messages[r.value].id == id
    ensures r.Some? ==> forall j :: 0 <= j < r.value ==> messages[j].id != id
    ensures r.None? ==> forall j :: 0 <= j < |messages| ==> messages[j].id != id
  {
    FindFirst(messages, (m: Message) => m.id == id)
  }

  /** The log after mark_message_read: the first message with that id marked. */
  function MarkedLog(messages: seq<Message>, id: int, now: Time): (r: seq<Message>)
    ensures |r| == |messages|
    ensures forall j :: 0 <= j < |r| ==> r[j].id == messages[j].id
  {
    match MessageIndex(messages, id)
    case None => messages
    case Some(k) => messages[k := MarkedRead(messages[k], now)]
  }

  /** Marking read a second time, at any later instant, changes nothing. */
  lemma MarkReadIdempotent(messages: seq<Message>, id: int, t1: Time, t2: Time)
    ensures MarkedLog(MarkedLog(messages, id, t1), id, t2) == MarkedLog(messages, id, t1)
  {
    var once := MarkedLog(messages, id, t1);
    match MessageIndex(messages, id)
    case None =>
    case Some(k) =>
      assert MessageIndex(once, id) == Some(k) by {
        var p := (m: Message) => m.id == id;
        var f := FindFirst(once, p);
        assert p(once[k]);
        assert forall j :: 0 <= j < k ==> !p(once[j]);
      }
  }

  /** mark_message_read as intended: true exactly when a message has that id. */
  method MarkMessageRead(db: Store, id: int, now: Time) returns (r: bool)
    modifies db
    ensures db.users == old(db.users) && db.files == old(db.files) && db.defenses == old(db.defenses)
    ensures r <==> MessageIndex(old(db.messages), id).Some?
    ensures db.messages == MarkedLog(old(db.messages), id, now)
    ensures old(db.Valid()) ==> db.Valid()
    ensures old(db.Valid() && db.CapacitiesRespected()) ==> db.CapacitiesRespected()
  {
    var k := 0;
    while k < |db.messages|
      invariant 0 <= k <= |db.messages|
      invariant forall j :: 0 <= j < k ==> db.messages[j].id != id
    {
      if db.messages[k].id == id {
        var marked := MarkedRead(db.messages[k], now);
        var msgs' := db.messages[k := marked];
        assert MessageIndex(db.messages, id) == Some(k);
        if db.Valid() {
          assert DistinctIds(msgs', MessageId) by {
            forall i, j | 0 <= i < j < |msgs'| ensures MessageId(msgs'[i]) != MessageId(msgs'[j]) {
              assert MessageId(db.messages[i]) != MessageId(db.messages[j]);
            }
          }
          assert MessagesResolve(db.users, msgs');
        }
        db.messages := msgs';
        return true;
      }
      k := k + 1;
    }
    r := false;
  }

  /** mark_message_read as written: the `return False` sits inside the loop,
      so only the first stored message is examined. The pair is the result
      and the new log. */
  function MarkReadAsWritten(messages: seq<Message>, id: int, now: Time): (r: (bool, seq<Message>))
    ensures r.0 ==> messages != [] && messages[0].id == id
    ensures !r.0 ==> r.1 == messages
  {
    if messages != [] && messages[0].id == id then (true, messages[0 := MarkedRead(messages[0], now)])
    else (false, messages)
  }

  /** The second of two messages is never marked as written; as intended it is. */
  lemma MarkReadMissesLater(a: Message, b: Message, now: Time)
    requires a.id != b.id && !b.isRead
    ensures MarkReadAsWritten([a, b], b.id, now) == (false, [a, b])
    ensures MessageIndex([a, b], b.id) == Some(1)
    ensures MarkedLog([a, b], b.id, now)[1].isRead
  {
    assert [a, b][1] == b;
  }

  /** delete_message_attempt: messages can never be deleted, whatever the id. */
  function DeleteMessageAttempt(id: int): (r: Outcome)
    ensures r == Fail(PermissionDenied)
  {
    Fail(PermissionDenied)
  }
}
