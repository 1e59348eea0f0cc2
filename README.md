# Thesis management record store

A model of the core of a small thesis-management system. One document holds
four collections: users (students and teachers), files, messages and
defenses. Four ledgers read and change it:

- the account ledger (`user_manager.py`) creates users, authenticates them,
  changes passwords and advisors, and sets teacher capacities;
- the defense ledger (`defense_manager.py`) normalises committees, counts
  jury seats, records, lists and amends defenses;
- the message log (`message_system.py`) sends, lists, searches and marks
  messages read, and refuses every deletion;
- the file registry (`file_manager.py`) registers, finds and deletes
  uploaded-file records.

Every public operation works the same way. It reads the document and checks
the request against what is stored, often across collections. Then it either
fails with nothing changed or commits exactly one change.

The project has eight modules:

- `Common` holds Option/Result/Outcome and the error classes. It also has
  the first-match scan, the max-plus-one id allocator, Python's prefix
  slice and a stable descending sort.
- `Text` holds `strip`, case normalisation, substring containment,
  `str(int)` and the reading of decimal digit strings.
- `Dates` parses and formats strict `YYYY-MM-DD` calendar dates.
- `Schema` holds the record datatypes and the `Store` class, which keeps
  the four collections as `seq` fields. It also holds the integrity rules
  every ledger must keep:
  - ids are distinct in each collection;
  - references resolve;
  - each student has at most one defense;
  - every score lies in [0, 20];
  - every file type is whitelisted;
  - no teacher has more advisees than its advisee capacity
    (`AdviseeBound`) or more jury seats than its jury capacity
    (`JuryBound`).
- `Accounts`, `DefenseLedger`, `MessageLog` and `FileRegistry` model the
  four ledgers.

Each mutator is a method that `modifies` the store. Its contract says:

- the result equals a specification function of the old collections, and
  the new collection equals what that function describes;
- nothing changes on error;
- a valid store stays valid;
- the capacity bounds are preserved (except by `SetTeacherCapacity`, see
  below).

Clocks, password hashing and the file system are not part of the model.
The current time (`now`), today's date (`today`), hashed credentials and
the password verifier are parameters. So are whether the source file
exists, its size and the time stamp in its stored name.

In three places the code behaves differently from what a reader of the
operation names might expect. The model follows the code:

- **Ids are reused after deletion.** An id might be expected to name one
  record for good. But the allocators compute max + 1 over the records
  that are still stored, so after the newest file is deleted its id comes
  back. `FileRegistry.DeletedNewestIdReused` shows this.
- **The search window is strict at both ends.** A message created exactly
  at `since` or exactly at `until` is dropped: the code skips messages at
  or before `since` and at or after `until` (message_system.py:110-113).
- **Lowering a capacity can break the capacity bounds.**
  `set_teacher_capacity` does no check, so it can set a capacity below the
  current use. The capacity bounds are therefore kept by user creation,
  advisor change, defense recording and amendment, but not by capacity
  setting. `Accounts.CapacityLoweringBreaksBound` exhibits this.

Some defects cannot be stated as a behaviour at all, because the code would
crash or reach nothing. The model follows the evident intent for these, and
a comment in the Dafny marks each one:

- **Two collection keys for messages.** `send_message` creates the
  `"messages"` collection (message_system.py:37) but appends to `"message"`
  (message_system.py:64). The id allocator, the search and the read
  receipt also read `"message"` (message_system.py:8, 103, 124). The model
  keeps one message collection.
- **`list_messages` cannot work as written.**
  - It calls the document as a function (message_system.py:71).
  - It reads a misspelt `craeted_at` key, so with `since` given no message
    is kept (message_system.py:80).
  - It sorts every element by the loop's last message instead of by the
    element itself (message_system.py:85).

  `MessageLog.ListMessages` models the evident intent: filter, sort newest
  first, truncate.

## Model

| member | source | states |
|---|---|---|
| Common.FindFirst | user_manager.py:34-39 | the scan returns the first index whose element satisfies the test, or none when no element does |
| Common.NextId | user_manager.py:29-32 | 1 on an empty collection; otherwise larger than every stored id and equal to the largest plus one |
| Common.AllocatedIdKeepsDistinct | user_manager.py:113-115 | appending a record that carries the allocated id keeps the ids of a collection distinct |
| Common.Take | message_system.py:86-88 | Python's `results[:limit]`: a prefix of length min(limit, len) for a non-negative limit, and all but the last -limit elements for a negative one |
| Common.InsertDesc | defense_manager.py:172 | inserting adds exactly that element: the result holds the input plus it, with the same multiplicities |
| Common.InsertDescSorted | defense_manager.py:172 | inserting into a newest-first list keeps it newest first |
| Common.SortDesc | defense_manager.py:172 | `sorted(..., reverse=True)`: the result is a permutation of the input, sorted descending by the key |
| Common.SortedElementsFrom | message_system.py:119 | sorting keeps exactly the elements of the input |
| Text.TrimShape | user_manager.py:61 | `strip()` yields a slice of the input with no white space at either end, empty exactly when the input is blank |
| Text.TrimIdempotent | user_manager.py:45 | stripping an already-stripped name changes nothing, so a stored name is found by its own value |
| Text.Lower | user_manager.py:45 | case normalisation keeps the length and maps each character on its own |
| Text.IntToString | file_manager.py:36 | `str(id)` is never empty; its meaning is given by the lemmas below |
| Text.IntToStringValue | file_manager.py:36 | the rendering of a non-negative id is all digits and reads back as that id |
| Text.IntToStringChars | file_manager.py:36 | a rendering holds only digits and a minus sign |
| Text.IntToStringSign | file_manager.py:36 | a rendering starts with a minus sign exactly when the number is negative |
| Text.IntToStringInjective | file_manager.py:36 | two numbers with the same rendering are equal |
| Text.DigitChar | file_manager.py:36 | a digit renders as the character with that digit value |
| Dates.DaysInMonth | user_manager.py:66-71 | every month of the Gregorian calendar has 28 to 31 days |
| Dates.DateKeyOrder | defense_manager.py:167-172 | the sort key orders dates exactly as calendar order does, and distinct dates have distinct keys |
| Dates.MinDateIsLeast | defense_manager.py:170-171 | the stand-in for an unreadable date is a valid date no earlier than any other |
| Dates.PadDigitsValue | user_manager.py:66-71 | a zero-padded rendering reads back as the number it renders |
| Dates.DigitsValuePad | user_manager.py:66-71 | a digit string is the zero-padded rendering of its own value |
| Dates.ParseDate | user_manager.py:66-71 | a date that parses is a valid calendar date |
| Dates.FormatDate | defense_manager.py:151 | `isoformat()` of a date is ten characters |
| Dates.ParseFormat | defense_manager.py:151 | a formatted date parses back to itself |
| Dates.FormatParse | user_manager.py:66-71 | text that parses is already in canonical form, so storing the stripped input stores the ISO form |
| Schema.Store.constructor | database.py:12-17 | the empty document has four empty collections and satisfies every integrity rule and capacity bound |
| Schema.AdviseeCount | user_manager.py:240-242 | `count_advisees` is at most the number of users |
| Schema.SeatCount | defense_manager.py:116-119 | a teacher's multiplicity in a committee is at most the committee's length |
| Schema.ReferencesSurvive | user_manager.py:217-237 | when every user keeps its id and role, every user, teacher and student reference still resolves |
| Schema.DependentsSurvive | user_manager.py:140-146 | rewriting user fields other than id and role keeps committees, defenders, uploaders and message participants resolving |
| Schema.AdviseeCountSameStanding | user_manager.py:160-166 | rewriting fields other than id, role and advisor changes no teacher's advisee count |
| Schema.SameStandingKeepsRules | user_manager.py:140-166 | such a rewrite (a login time, a password) keeps the document valid and the capacity bounds |
| Schema.RecordEditKeepsRules | user_manager.py:140-166 | replacing one user by a copy with the same id, role, advisor and capacities keeps the document valid and both capacity bounds |
| Schema.FirstIdMatch | user_manager.py:34-39 | the first record with an id is the one the id lookup returns |
| Schema.AdviseeCountAppend | user_manager.py:113-115 | appending a user adds one advisee to its advisor only |
| Schema.AdviseeCountUpdate | user_manager.py:217-237 | replacing one user changes each teacher's advisee count by exactly the difference the replacement makes |
| Schema.AdviseeCountZero | user_manager.py:240-242 | nobody advised by t means t has no advisees |
| Schema.SeatCountWitness | defense_manager.py:116-119 | a positive multiplicity has a committee entry that holds the seat |
| Schema.JuryCountAppend | defense_manager.py:159 | appending a defense adds its committee's seats to each teacher's jury count |
| Schema.JuryCountUpdate | defense_manager.py:208-212 | the jury count includes a defense's stored committee; replacing the defense swaps its seats for the new committee's |
| Schema.JuryCountZero | defense_manager.py:89-96 | a teacher seated nowhere has a zero jury count |
| Schema.StrangerHasNoLoad | user_manager.py:29-32 | an id no user has carries no advisees and no jury seats in a valid document |
| Accounts.NextUserId | user_manager.py:29-32 | the new user id is 1 on an empty list, else one more than the largest stored id |
| Accounts.UserIndex | user_manager.py:34-39 | the position of the first user with the id, or none exactly when no user has it |
| Accounts.GetUserById | user_manager.py:34-39 | a user is returned exactly when one has the id, and it is the first such user |
| Accounts.GetUserByName | user_manager.py:41-50 | the first user, in stored order, whose stripped, case-normalised name equals the query's; none exactly when no user's does |
| Accounts.ParseRole | user_manager.py:62-63 | only "student" and "teacher" are roles |
| Accounts.NewUserCheck | user_manager.py:59-111 | creation passes exactly when the arguments are valid and a named advisor is a teacher with room. An unknown or non-teacher advisor is NotFound and a full advisor is CapacityExceeded |
| Accounts.AddUser | user_manager.py:58-115 | fails with the users unchanged exactly when the check fails. Otherwise it appends one record: the next id, the stripped name, the canonical date, an active user with no last login, default capacities 5 and 10 for a teacher. It returns the id and keeps validity and both capacity bounds |
| Accounts.NewUserKeepsRules | user_manager.py:100-115 | appending a record that passed the check keeps the document valid and no teacher over its advisee or jury capacity |
| Accounts.NewUserKeepsDocument | user_manager.py:100-115 | appending a record that passed the check keeps ids distinct and every reference resolving |
| Accounts.NewUserKeepsAdviseeBound | user_manager.py:100-115 | appending a student whose advisor has room, or a teacher with non-negative capacities, keeps every teacher within its advisee capacity |
| Accounts.NewUserKeepsJuryBound | user_manager.py:113-115 | appending a user seats nobody, so every teacher stays within its jury capacity |
| Accounts.AppendUser | user_manager.py:113-115 | the new record ends the user collection, the other collections stay, and validity and both capacity bounds survive |
| Accounts.Lookup | user_manager.py:123-126 | an int identifier is looked up by id and anything else by name, so the found user is the first match of that lookup |
| Accounts.ScanForId | user_manager.py:141-145 | the loop finds the position of the first user with the id, or -1 when there is none |
| Accounts.ReplaceUser | user_manager.py:140-146 | the user at one position is replaced by a copy with the same id, role, advisor and capacities; nothing else changes and validity and both bounds survive |
| Accounts.AuthenticateUser | user_manager.py:118-148 | returns a user exactly when one is found, is active, has salt and hash and the password verifies. On success only that user's last login changes; otherwise nothing changes |
| Accounts.StampLogin | user_manager.py:140-147 | the first user with the id gets the login time and is returned as stored; nothing else changes and validity and both bounds survive |
| Accounts.ChangePassword | user_manager.py:150-168 | NotFound for an unknown user, a failure when the old password does not verify; on success only that user's credentials change |
| Accounts.RequireRole | user_manager.py:171-177 | passes exactly when a user is given and has the role; no user is a validation error, another role a permission error |
| Accounts.StudentsOfTeacherCounted | user_manager.py:179-183 | the listed users are exactly the students the teacher advises, and there are `count_advisees` of them |
| Accounts.AdviseeCountExceptOne | user_manager.py:209-213 | counting a teacher's advisees other than one student is the full count less one when that student is an advisee |
| Accounts.AdviseeCountExceptNone | user_manager.py:209-213 | excluding an id nobody has changes no count |
| Accounts.ChangeAdvisor | user_manager.py:186-237 | NotFound unless a student and a teacher are named; the current advisor passes with nothing changed. An unreadable defense date is a validation error and a date on or before today a temporal error. A teacher whose other advisees fill its capacity is full. On success only that student changes: the new advisor, with one history entry appended. Validity and both capacity bounds are kept |
| Accounts.ReassignKeepsRules | user_manager.py:209-237 | moving a student to a teacher with room keeps the document valid and every capacity bound |
| Accounts.GetRemainingAdviseeSlots | user_manager.py:245-251 | NotFound for an unknown id; otherwise capacity minus `count_advisees` |
| Accounts.RemainingSlotsNonNegative | user_manager.py:245-251 | a teacher in a store within its bounds never has negative remaining slots |
| Accounts.SetTeacherCapacity | user_manager.py:253-263 | true exactly when the id names a teacher. Then only the first such user changes, and only in the capacities supplied; otherwise nothing changes. Validity is kept |
| Accounts.WithCapacities | user_manager.py:256-260 | a supplied capacity replaces the old one and an absent one keeps it; identity, role and advisor stay |
| Accounts.CapacityLoweringBreaksBound | user_manager.py:253-263 | a store within its bounds leaves them once a teacher's capacity is lowered below its current advisees |
| DefenseLedger.NextDefenseId | defense_manager.py:5-9 | the new defense id is 1 on an empty list, else one more than the largest stored id |
| DefenseLedger.TeacherEntry | defense_manager.py:38-46 | an id entry becomes the teacher's seat, with its stored name, exactly when the id names a teacher; an unknown id is NotFound and a non-teacher a validation error |
| DefenseLedger.NormalizeEntry | defense_manager.py:37-81 | a non-blank string becomes a stripped external member and a blank one is skipped, the only skip. A dict with only a name keeps its given role (external by default). A dict with neither key, or any other value, fails. Every produced member resolves |
| DefenseLedger.NormalizeEntryById | defense_manager.py:37-67 | an int id, or a dict with a non-null id, is the teacher entry for that id: a seat exactly when the id names a teacher, NotFound for an unknown id, a validation error for a non-teacher |
| DefenseLedger.NormalizedEntries | defense_manager.py:35-81 | the normalised list is never longer than the input and every entry resolves |
| DefenseLedger.NormalizedEntriesFail | defense_manager.py:37-81 | the whole list normalises exactly when every entry does |
| DefenseLedger.NormalizedEntriesStep | defense_manager.py:36-81 | one more element: the list normalises exactly when its prefix and that element do |
| DefenseLedger.NormalizedErrorSticks | defense_manager.py:37-81 | the first failing entry decides the error: later entries are never looked at |
| DefenseLedger.Committee | defense_manager.py:32-87 | a committee normalises only with at least one member whose role is teacher; its entries resolve and it is no longer than the input |
| DefenseLedger.NormalizeCommittee | defense_manager.py:32-87 | the append loop computes exactly the committee specification |
| DefenseLedger.NameOnlyTeacherHasNoSeat | defense_manager.py:70-86 | a dict with a name and role teacher but no id satisfies the teacher rule yet holds no counted seat |
| DefenseLedger.CountJuryAssignments | defense_manager.py:89-96 | the nested loop counts exactly the entries, over all defenses, whose id is t and whose role is teacher |
| DefenseLedger.JuryCheck | defense_manager.py:116-128 | passes exactly when every counted teacher of the new committee exists and its current seats plus its multiplicity fit its jury capacity; fails with NotFound or CapacityExceeded |
| DefenseLedger.CheckJuryCapacity | defense_manager.py:116-128 | the multiplicity loop computes exactly the jury check |
| DefenseLedger.ScoreValue | defense_manager.py:130-139 | an absent score stays absent; a number is kept exactly when it lies in [0, 20]; anything else is a validation error |
| DefenseLedger.NewDefense | defense_manager.py:98-161 | succeeds exactly when every check passes. Not a student is NotFound and a second defense for a student is Conflict. The record has the next id, the canonical date, the normalised committee, the supplied score (in range, or none), the notes, the recorder and the time |
| DefenseLedger.RecordDefense | defense_manager.py:98-161 | returns the specification's result; on success appends exactly that record and changes nothing else, keeping validity and both capacity bounds |
| DefenseLedger.HasDefenseScan | defense_manager.py:108-110 | the duplicate loop finds a stored defense for the student exactly when one exists |
| DefenseLedger.AppendDefense | defense_manager.py:159 | an admissible record ends the defense collection, the other collections stay, and validity and the jury bound survive |
| DefenseLedger.SeatFitsAt | defense_manager.py:121-128 | a teacher that passed the check fits its capacity with the new committee's seats added |
| DefenseLedger.SeatedTeacherFits | defense_manager.py:121-128 | any teacher seated in an accepted committee fits its capacity with the new seats added |
| DefenseLedger.NewDefenseKeepsRules | defense_manager.py:103-128 | appending an admissible defense keeps the document valid and every teacher within its jury capacity |
| DefenseLedger.RecordedStudentsDistinct | defense_manager.py:108-110 | adding a defense for a student without one keeps at most one defense per student |
| DefenseLedger.ListDefenses | defense_manager.py:164-172 | a permutation of all defenses, sorted by date, newest first |
| DefenseLedger.ListDefensesChronological | defense_manager.py:167-172 | of two listed defenses with readable dates, the earlier in the list is not before the later; an unreadable date ranks as the minimum |
| DefenseLedger.DefenseIndex | defense_manager.py:188-194 | the position of the first defense with the id, or none when there is none |
| DefenseLedger.GetDefenseById | defense_manager.py:174-179 | returns the first stored defense with the id, or none exactly when no defense has it |
| DefenseLedger.GetDefenseByIdAsWritten | defense_manager.py:174-179 | as written only the first stored defense can be returned |
| DefenseLedger.GetDefenseByIdMissesLater | defense_manager.py:176-179 | the second of two defenses is not found as written, and is found as intended |
| DefenseLedger.ListDefensesByStudent | defense_manager.py:181-183 | exactly that student's defenses, never more than are stored |
| DefenseLedger.AtMostOneDefenseListed | defense_manager.py:181-183 | in a store with one defense per student the list has at most one entry, and one exactly when the student has a defense |
| DefenseLedger.Amend | defense_manager.py:196-221 | succeeds exactly when a supplied committee normalises and passes the jury check (against counts still holding the old committee) and a supplied score is in range. It changes only committee, score and notes, each only when supplied |
| DefenseLedger.UpdateDefense | defense_manager.py:186-223 | NotFound for an unknown id. Otherwise it returns the amendment of the first defense with the id and stores it in place, keeping validity and both capacity bounds |
| DefenseLedger.ReplaceDefense | defense_manager.py:212-223 | an accepted amendment takes the stored defense's place, nothing else changes, and validity and the jury bound survive |
| DefenseLedger.AmendKeepsRules | defense_manager.py:196-212 | replacing a defense by an accepted amendment keeps the document valid and every teacher within its jury capacity |
| DefenseLedger.NewDefenseAsWritten | defense_manager.py:121-161 | as written a stored record carries the normalised committee, and nothing is stored when the committee has no counted teacher |
| DefenseLedger.SampleLookups | defense_manager.py:121-126 | the sample store resolves its two teachers and its student |
| DefenseLedger.SampleCommitteeNormalized | defense_manager.py:32-87 | the sample committee normalises to two teacher seats |
| DefenseLedger.SampleSeats | defense_manager.py:116-128 | in the sample the second teacher does not fit while the first does |
| DefenseLedger.SampleRefused | defense_manager.py:121-128 | as intended the sample committee is refused for jury capacity |
| DefenseLedger.SampleStoredAsWritten | defense_manager.py:121-161 | as written the sample committee is recorded |
| DefenseLedger.SampleWithinBound | defense_manager.py:121-128 | the sample store, with no defense yet, is within every jury capacity |
| DefenseLedger.SampleOverloadsB | defense_manager.py:121-128 | recording the sample committee puts the second teacher over its jury capacity |
| DefenseLedger.SecondTeacherUnchecked | defense_manager.py:121-161 | a committee whose second teacher has no jury seat left is refused as intended. As written it is recorded, leaving a store that breaks the jury bound |
| DefenseLedger.AmendAsWritten | defense_manager.py:196-223 | as written a supplied score is never stored, nothing happens without a committee, and nothing is stored without a score |
| DefenseLedger.AmendDropsScoreAndNotes | defense_manager.py:196-223 | a score or notes supplied without a committee are dropped as written and stored as intended |
| MessageLog.NextMessageId | message_system.py:7-11 | the new message id is 1 on an empty log, else one more than the largest stored id |
| MessageLog.TextCheck | message_system.py:31-34 | the text passes exactly when it is not blank and has at most 20000 characters |
| MessageLog.ParticipantCheck | message_system.py:43-50 | passes exactly when both participants exist and are active; a missing one is NotFound, an inactive one a validation error |
| MessageLog.SendMessage | message_system.py:30-66 | the text check comes first, then the participants. On success it appends one unread message with the next id, the sender, receiver, text and time. On failure the log is unchanged. Validity is kept |
| MessageLog.Selected | message_system.py:74-83 | keeps exactly the messages involving the user and created strictly after `since`, never more than stored |
| MessageLog.Newest | message_system.py:68-88 | the listing is a prefix of the selected messages sorted newest first, of Python slice length: min(limit, n) for a non-negative limit, n less the excess for a negative one, all n without a limit |
| MessageLog.NewestMeaning | message_system.py:74-88 | the listed messages are selected ones, newest first; the newest min(limit, n) of them for a non-negative limit, and all selected ones when no limit is given |
| MessageLog.ListMessages | message_system.py:68-88 | the filtering loop computes exactly the listing: only matching messages, at most `limit` |
| MessageLog.Found | message_system.py:103-117 | keeps exactly the messages that pass the participant and window filters and whose normalised text contains the normalised query |
| MessageLog.FoundSnoc | message_system.py:103-117 | one more stored message is kept exactly when it passes every filter |
| MessageLog.FoundPrefix | message_system.py:103-117 | scanning one more message of the log extends the found list by that message exactly when it passes every filter |
| MessageLog.FoundSnocUnfiltered | message_system.py:115-117 | with no participant or time filter only the text decides whether one more message is kept |
| MessageLog.FoundBoth | message_system.py:103-117 | two matching messages are both found, in stored order |
| MessageLog.SearchResult | message_system.py:90-120 | a blank query is a validation error. Otherwise the result is newest first and holds exactly the messages that pass every filter |
| MessageLog.SearchMessages | message_system.py:90-120 | the search loop computes exactly the search result |
| MessageLog.ScanMatches | message_system.py:103-117 | the filtering loop collects exactly the found messages, in stored order |
| MessageLog.SearchAsWritten | message_system.py:103-120 | as written a blank query still fails, and at most one message is ever returned |
| MessageLog.SearchStopsAfterFirst | message_system.py:115-120 | of two matching messages only the first is returned as written, both as intended |
| MessageLog.MarkedRead | message_system.py:125-128 | marking sets the read flag. It stamps the time only on an unread message and leaves a read one unchanged |
| MessageLog.MessageIndex | message_system.py:124-125 | the position of the first message with the id, or none when there is none |
| MessageLog.MarkedLog | message_system.py:122-130 | marking keeps the length of the log and every message's id |
| MessageLog.MarkReadIdempotent | message_system.py:122-130 | marking a message read twice, at any two times, leaves the log as the first marking did |
| MessageLog.MarkMessageRead | message_system.py:122-131 | true exactly when a message has the id; the log becomes the marked log and nothing else changes |
| MessageLog.MarkReadAsWritten | message_system.py:122-131 | as written only the first stored message can be marked, and a miss changes nothing |
| MessageLog.MarkReadMissesLater | message_system.py:124-131 | the second of two messages is reported missing and left unread as written, and is marked as intended |
| MessageLog.DeleteMessageAttempt | message_system.py:133-134 | every deletion is refused with a permission error, whatever the id |
| FileRegistry.NextFileId | file_manager.py:9-12 | the new file id is 1 on an empty list, else one more than the largest stored id |
| FileRegistry.NameStart | file_manager.py:45 | the base name starts after the last separator |
| FileRegistry.BaseName | file_manager.py:45 | `Path.name`: the part of the path after the last separator, which contains none |
| FileRegistry.LastDot | file_manager.py:20 | the position of the last dot, or -1 |
| FileRegistry.Suffix | file_manager.py:20 | `Path.suffix`: non-empty exactly when the last dot of the name is neither its first nor its last character, and then the name from that dot on (a dot, at least one character, no further dot) |
| FileRegistry.FileType | file_manager.py:47 | the stored type of a whitelisted extension is in {pdf, jpg, jpeg} and is the extension without its dot |
| FileRegistry.UpperCasePdfAccepted | file_manager.py:20-22 | the extension check ignores case: `<dir>/thesis.PDF` has extension `.pdf`, is accepted, and is stored with type `pdf` |
| FileRegistry.RegistrationCheck | file_manager.py:16-33 | passes exactly when the source exists, its lowercased extension is whitelisted and a supplied uploader exists and is active. A missing source is NotFound and a wrong extension a validation error |
| FileRegistry.RegisterFile | file_manager.py:14-57 | fails with the files unchanged exactly when the check fails. Otherwise it appends one record: the next id, the base name, `uploads/file_<id>_<stamp><ext>`, a whitelisted type, the description, uploader and size. It returns the id and keeps validity |
| FileRegistry.FirstMarkAt | file_manager.py:36 | in `<id>_<rest>` with no separator in the id, the first separator follows the id |
| FileRegistry.StoredPathInjective | file_manager.py:36-37 | two files with different ids never get the same stored path, whatever their timestamps and extensions |
| FileRegistry.AppendFile | file_manager.py:43-55 | a record under the next id, with a whitelisted type and a known uploader, ends the file collection; the other collections stay and validity survives |
| FileRegistry.NewFileKeepsRules | file_manager.py:43-55 | appending such a record keeps file ids distinct and every uploader resolving |
| FileRegistry.Chosen | file_manager.py:63-77 | keeps exactly the files that satisfy every supplied filter, in stored order, never more than stored |
| FileRegistry.NoFilterListsAll | file_manager.py:59-77 | with no filter the search returns what `list_files` returns: every file |
| FileRegistry.ChosenSnoc | file_manager.py:67-76 | one more file is kept exactly when it satisfies the filters |
| FileRegistry.FiltersCompose | file_manager.py:67-76 | applying the type, uploader and name filters one after another equals applying them together (they are ANDed) |
| FileRegistry.FindFiles | file_manager.py:63-77 | the filtering loop computes exactly the chosen files |
| FileRegistry.FileIndex | file_manager.py:88-89 | the position of the first file with the id, or none when there is none |
| FileRegistry.GetFileById | file_manager.py:79-84 | returns the first record with the id, or none exactly when no file has it |
| FileRegistry.DeleteFile | file_manager.py:86-98 | true exactly when a file has the id. Then only the first such record is removed and the others keep their order; otherwise nothing changes. Validity is kept |
| FileRegistry.RemovalKeepsRules | file_manager.py:95 | removing one record keeps ids distinct and uploaders resolving, and removes exactly that record |
| FileRegistry.DeletedNewestIdReused | file_manager.py:9-12 | after deleting the newest of two files, the next file gets the deleted id again |

## Left out

- Password hashing (PBKDF2 with a random salt) and its constant-time check are not modelled. Credentials are an opaque value and the verifier is a function parameter.
- Wall-clock time is not modelled. The time is a parameter `now`, taken as an integer instant, and today's date is a parameter `today`.
- `_parse_iso` is not modelled. Message times are those integer instants, so an unreadable stored time (which the code ranks as the minimum) cannot occur.
- The JSON load and save of the document, its path arguments and `reset_db` are not modelled. The document is the `Store` object. The fixed path passed at defense_manager.py:39 makes no difference in one store.
- The file system is not modelled: `Path.exists`, `mkdir`, `copy2`, `stat` and `unlink`. Existence, size and the stored-name time stamp are parameters. `delete_from_disk` is dropped, because a failure to unlink never affects the result.
- Dates.ParseDate: accepts only the strict `YYYY-MM-DD` form of ISO 8601 extended calendar dates. It does not accept the other forms `fromisoformat` takes, unpadded `strptime` fields, or date objects passed directly.
- DefenseLedger.ScoreValue: a score is a real number or a value `float()` refuses. Strings holding numbers, infinities and NaN are not modelled.
- Text.Lower: folds only ASCII capitals, where Python's `casefold` covers all of Unicode.
- Text.IsSpace: covers the ASCII white space and the Latin-1 spaces, where Python's `strip` covers all Unicode white space.
- Dynamic typing is not modelled: non-string names, texts and queries, a non-list committee, booleans used as ints, `str(None)` for a null dict name, and keys missing from stored records. Records always carry every field.
- The empty `metadata` object of a file record is not modelled, because nothing reads it.
- `list_users`, the command-line menu, the report generator and the demonstration blocks are not part of this model.
- A trailing separator in a path is not modelled. `Path` drops it before taking the name; the model takes the text after the last `/`.
- Accounts.SetTeacherCapacity: promises validity but not the capacity bounds, because the code lets a capacity fall below current use (`Accounts.CapacityLoweringBreaksBound`).
- FileRegistry.StoredPath: has no contract of its own. `FileRegistry.RegisterFile` states the stored path through it, and `FileRegistry.StoredPathInjective` proves that distinct ids give distinct paths.
- FileRegistry.Extension: has no contract of its own. It is `Text.Lower` of `FileRegistry.Suffix` of the base name, whose contracts state its meaning; `FileRegistry.UpperCasePdfAccepted` shows it on an upper-case name.
- FileRegistry.Wanted: has no contract of its own. It is the conjunction of the three filters of `find_files`, and `FileRegistry.Chosen` and `FileRegistry.FiltersCompose` state what it selects.
- FileRegistry.ListFiles: has no contract of its own. It returns the stored list, and `FileRegistry.NoFilterListsAll` relates it to the search.
- Accounts.ListStudentsOfTeacher: has no contract of its own. `Accounts.StudentsOfTeacherCounted` states what it lists.
- Several failures are raised in the code as the same `ValueError` class and are split here into error classes: missing, conflicting, over capacity, too late and malformed requests.
- Concurrency and the atomicity of saves are not modelled. The code is single-writer.

## Findings

| source | as written | input that shows it | evidently intended | confidence | as-written member | corrected member |
|---|---|---|---|---|---|---|
| defense_manager.py:121-161 | the score check, the recorder check and the append are indented inside the per-teacher capacity loop: only the first counted teacher's capacity is checked, and a committee with no counted teacher stores nothing | a committee of teacher 1 (free seats) then teacher 2 (jury capacity 0) for a student without a defense | check every teacher, then record once; refuse with capacity exceeded | high, not executed | DefenseLedger.NewDefenseAsWritten, DefenseLedger.SecondTeacherUnchecked | DefenseLedger.NewDefense |
| defense_manager.py:174-179 | `return None` is inside the loop, so only the first stored defense is examined | two defenses, looking up the second one's id | return the defense with the id wherever it is stored | high, not executed | DefenseLedger.GetDefenseByIdAsWritten, DefenseLedger.GetDefenseByIdMissesLater | DefenseLedger.GetDefenseById |
| message_system.py:122-131 | `return False` is inside the loop, so only the first stored message is examined | two messages, marking the second (unread) one | mark the message with the id wherever it is stored | high, not executed | MessageLog.MarkReadAsWritten, MessageLog.MarkReadMissesLater | MessageLog.MarkMessageRead |
| message_system.py:115-120 | the sort and `return` are inside the loop, so the search ends at the first message that passes the participant and time filters | two messages that both contain the query | return every matching message, newest first | high, not executed | MessageLog.SearchAsWritten, MessageLog.SearchStopsAfterFirst | MessageLog.SearchResult |
| defense_manager.py:196-223 | the score and notes updates sit inside the committee branch; the score is assigned only in the `except` branch, where `fs` is unbound; nothing is saved without a score | an update with score 15 and no committee, or with notes and no score | apply each supplied field after its check and save | high, not executed | DefenseLedger.AmendAsWritten, DefenseLedger.AmendDropsScoreAndNotes | DefenseLedger.Amend |
