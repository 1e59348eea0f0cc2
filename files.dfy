// The file registry (file_manager.py): registration with an extension
// whitelist and an uploader check, filtered search, lookup and deletion.
// The file system is not modelled: whether the source path exists, the
// copied file's size and the timestamp in the stored name are inputs, and
// copying or unlinking files has no counterpart here.

module FileRegistry {
  import opened Common
  import opened Text
  import opened Schema
  import opened Accounts

  /** ALLOWED_EXTS, with the dot. */
  const AllowedExts: set<string> := {".pdf", ".jpg", ".jpeg"}

  const UploadsDir: string := "uploads"

  /** _next_file_id. */
  function NextFileId(files: seq<FileRecord>): (r: int)
    ensures files == [] ==> r == 1
    ensures forall k :: 0 <= k < |files| ==> files[k].id < r
    ensures files != [] ==> exists k :: 0 <= k < |files| && files[k].id == r - 1
  {
    NextId(files, FileId)
  }

  /** Position just after the last '/', or 0. */
  function NameStart(path: string): (i: nat)
    ensures i <= |path|
    ensures forall j :: i <= j < |path| ==> path[j] != '/'
    ensures i > 0 ==> path[i - 1] == '/'
  {
    if path == [] then 0
    else if path[|path| - 1] == '/' then |path|
    else NameStart(path[..|path| - 1])
  }

  /** Path(p).name: the last component of a slash-separated path. */
  function BaseName(path: string): (r: string)
    ensures forall j :: 0 <= j < |r| ==> r[j] != '/'
    ensures r == path[NameStart(path)..]
  {
    path[NameStart(path)..]
  }

  /** Index of the last '.' in s, or -1. */
  function LastDot(s: string): (i: int)
    ensures -1 <= i < |s|
    ensures i >= 0 ==> s[i] == '.'
    ensures forall j :: i < j < |s| ==> s[j] != '.'
  {
    if s == [] then -1
    else if s[|s| - 1] == '.' then |s| - 1
    else LastDot(s[..|s| - 1])
  }

  /** Path(p).suffix: from the last '.' of the name on, provided that dot is
      neither the name's first nor its last character; otherwise empty. */
  function Suffix(name: string): (r: string)
    ensures r != [] <==> 0 < LastDot(name) < |name| - 1
    ensures r != [] ==> r == name[LastDot(name)..]
    ensures r != [] ==> r[0] == '.' && 2 <= |r| < |name| && r == name[|name| - |r|..]
    ensures r != [] ==> forall j :: 1 <= j < |r| ==> r[j] != '.'
  {
    var i := LastDot(name);
    if 0 < i < |name| - 1 then name[i..] else ""
  }

  /** The lower-cased extension register_file checks. */
  function Extension(path: string): string
  {
    Lower(Suffix(BaseName(path)))
  }

  /** The extension check ignores case: an upper-case ".PDF" upload is
      accepted and stored with type "pdf". */
  lemma UpperCasePdfAccepted(dir: string)
    ensures Extension(dir + "/thesis.PDF") == ".pdf"
    ensures Extension(dir + "/thesis.PDF") in AllowedExts
    ensures FileType(Extension(dir + "/thesis.PDF")) == "pdf"
  {
    var path := dir + "/thesis.PDF";
    var name := BaseName(path);
    assert path[|dir|] == '/';
    assert NameStart(path) == |dir| + 1;
    assert name == "thesis.PDF";
    assert name[6] == '.' && name[7] != '.' && name[8] != '.' && name[9] != '.';
    assert LastDot(name) == 6;
    assert Suffix(name) == ".PDF";
  }

  /** file_type: the allowed extension without its dot, always one of the
      three whitelisted types. */
  function FileType(ext: string): (r: string)
    requires ext in AllowedExts
    ensures r in AllowedFileTypes
    ensures "." + r == ext
  {
    ext[1..]
  }

  /** The checks of register_file, in the source's order: the source file
      must exist, its extension must be whitelisted, and a given uploader
      must exist and be active. */
  function RegistrationCheck(users: seq<User>, path: string, exists_: bool, uploaderId: Option<int>): (r: Outcome)
    ensures r.Pass? <==> exists_ && Extension(path) in AllowedExts &&
                         (uploaderId.Some? ==> ActiveUploader(users, uploaderId.value))
    ensures !exists_ ==> r == Fail(NotFound)
    ensures exists_ && Extension(path) !in AllowedExts ==> r == Fail(Validation)
  {
    if !exists_ then Fail(NotFound)
    else if Extension(path) !in AllowedExts then Fail(Validation)
    else if uploaderId.None? then Pass
    else match GetUserById(users, uploaderId.value)
      case None => Fail(NotFound)
      case Some(u) => if !u.isActive then Fail(Validation) else Pass
  }

  predicate ActiveUploader(users: seq<User>, id: int)
  {
    GetUserById(users, id).Some? && GetUserById(users, id).value.isActive
  }

  /** The stored path: uploads/file_<id>_<timestamp><ext>. */
  function StoredPath(id: int, stamp: string, ext: string): string
  {
    UploadsDir + "/file_" + IntToString(id) + "_" + stamp + ext
  }

  /** The first separator of x + [c] + rest is the one after x when x holds none. */
  lemma FirstMarkAt(x: string, c: char, rest: string)
    requires forall i :: 0 <= i < |x| ==> x[i] != c
    ensures FindFirst(x + [c] + rest, (ch: char) => ch == c) == Some(|x|)
  {
    var s := x + [c] + rest;
    assert s[|x|] == c;
    assert forall j :: 0 <= j < |x| ==> s[j] == x[j];
  }

  /** Distinct ids never share a stored path, whatever the timestamps and
      extensions: the id is the text between "file_" and the next "_". */
  lemma StoredPathInjective(a: int, b: int, stampA: string, stampB: string, extA: string, extB: string)
    requires StoredPath(a, stampA, extA) == StoredPath(b, stampB, extB)
    ensures a == b
  {
    var pre := UploadsDir + "/file_";
    var x, y := IntToString(a), IntToString(b);
    var restA, restB := stampA + extA, stampB + extB;
    assert StoredPath(a, stampA, extA) == pre + (x + "_" + restA);
    assert StoredPath(b, stampB, extB) == pre + (y + "_" + restB);
    var tail := StoredPath(a, stampA, extA)[|pre|..];
    assert tail == x + ['_'] + restA;
    assert tail == y + ['_'] + restB;
    IntToStringChars(a);
    IntToStringChars(b);
    FirstMarkAt(x, '_', restA);
    FirstMarkAt(y, '_', restB);
    assert x == tail[..|x|] == y;
    IntToStringInjective(a, b);
  }

  /** register_file: on success one record is appended under the next id. */
  method RegisterFile(db: Store, path: string, exists_: bool, sizeBytes: int, description: string,
                      uploaderId: Option<int>, stamp: string, now: Time)
    returns (r: Result<int>)
    modifies db
    ensures db.users == old(db.users) && db.messages == old(db.messages) && db.defenses == old(db.defenses)
    ensures var c := RegistrationCheck(old(db.users), path, exists_, uploaderId);
            (r.Ok? <==> c.Pass?) && (r.Err? ==> r.error == c.error && db.files == old(db.files))
    ensures r.Ok? ==>
              && r.value == NextFileId(old(db.files))
              && |db.files| == |old(db.files)| + 1
              && db.files[..|old(db.files)|] == old(db.files)
              && var f := db.files[|old(db.files)|];
                 && f.id == r.value
                 && f.originalName == BaseName(path)
                 && f.storedPath == StoredPath(r.value, stamp, Extension(path))
                 && f.fileType in AllowedFileTypes
                 && "." + f.fileType == Extension(path)
                 && f.description == description && f.uploaderId == uploaderId
                 && f.sizeBytes == sizeBytes && f.registeredAt == now
    ensures old(db.Valid()) ==> db.Valid()
    ensures old(db.Valid() && db.CapacitiesRespected()) ==> db.CapacitiesRespected()
  {
    var check := RegistrationCheck(db.users, path, exists_, uploaderId);
    if check.Fail? {
      return Err(check.error);
    }
    var ext := Extension(path);
    var newId := NextFileId(db.files);
    var f := FileRecord(newId, BaseName(path), StoredPath(newId, stamp, ext), FileType(ext), description,
                        uploaderId, sizeBytes, now);
    AppendFile(db, f);
    r := Ok(newId);
  }

  /** The store update of register_file: the record joins the end of the
      file collection and the document rules survive. */
  method AppendFile(db: Store, f: FileRecord)
    requires f.id == NextFileId(db.files) && f.fileType in AllowedFileTypes
    requires f.uploaderId.Some? ==> IsUser(db.users, f.uploaderId.value)
    modifies db
    ensures db.files == old(db.files) + [f]
    ensures db.users == old(db.users) && db.messages == old(db.messages) && db.defenses == old(db.defenses)
    ensures old(db.Valid()) ==> db.Valid()
    ensures old(db.Valid() && db.CapacitiesRespected()) ==> db.CapacitiesRespected()
  {
    NewFileKeepsRules(db.users, db.files, f);
    db.files := db.files + [f];
  }

  /** Appending a record under the next id, with a whitelisted type and a
      known uploader, keeps file ids distinct and file references valid. */
  lemma NewFileKeepsRules(users: seq<User>, files: seq<FileRecord>, f: FileRecord)
    requires f.id == NextFileId(files) && f.fileType in AllowedFileTypes
    requires f.uploaderId.Some? ==> IsUser(users, f.uploaderId.value)
    ensures DistinctIds(files, FileId) ==> DistinctIds(files + [f], FileId)
    ensures FilesResolve(users, files) ==> FilesResolve(users, files + [f])
  {
    if DistinctIds(files, FileId) {
      AllocatedIdKeepsDistinct(files, FileId, f);
    }
  }

  /** list_files: the collection as stored. */
  function ListFiles(files: seq<FileRecord>): seq<FileRecord>
  {
    files
  }

  // ---------------------------------------------------------------------
  // Search, lookup and deletion.

  /** The filters of find_files, all of which must hold. */
  predicate Wanted(f: FileRecord, fileType: Option<string>, uploaderId: Option<int>, nameContains: Option<string>)
  {
    && (fileType.None? || f.fileType == fileType.value)
    && (uploaderId.None? || f.uploaderId == Some(uploaderId.value))
    && (nameContains.None? || Contains(Lower(f.originalName), Lower(nameContains.value)))
  }

  /** The files find_files keeps, in stored order. */
  function Chosen(files: seq<FileRecord>, fileType: Option<string>, uploaderId: Option<int>, nameContains: Option<string>)
    : (r: seq<FileRecord>)
    ensures |r| <= |files|
    ensures forall f :: f in r <==> f in files && Wanted(f, fileType, uploaderId, nameContains)
  {
    if files == [] then []
    else
      var init := files[..|files| - 1];
      var last := files[|files| - 1];
      assert files == init + [last];
      var rest := Chosen(init, fileType, uploaderId, nameContains);
      if Wanted(last, fileType, uploaderId, nameContains) then rest + [last] else rest
  }

  /** With no filter, find_files returns what list_files does. */
  lemma {:induction false} NoFilterListsAll(files: seq<FileRecord>)
    ensures Chosen(files, None, None, None) == ListFiles(files)
  {
    if files != [] {
      NoFilterListsAll(files[..|files| - 1]);
      assert files == files[..|files| - 1] + [files[|files| - 1]];
    }
  }

  lemma ChosenSnoc(files: seq<FileRecord>, f: FileRecord, fileType: Option<string>, uploaderId: Option<int>,
                   nameContains: Option<string>)
    ensures Chosen(files + [f], fileType, uploaderId, nameContains) ==
            Chosen(files, fileType, uploaderId, nameContains) + (if Wanted(f, fileType, uploaderId, nameContains) then [f] else [])
  {
    assert (files + [f])[..|files|] == files;
  }

  /** The filters are combined by AND: applying them one after another
      gives the same list as applying them together. */
  lemma {:induction false} FiltersCompose(files: seq<FileRecord>, fileType: Option<string>, uploaderId: Option<int>,
                                          nameContains: Option<string>)
    ensures Chosen(Chosen(Chosen(files, fileType, None, None), None, uploaderId, None), None, None, nameContains)
            == Chosen(files, fileType, uploaderId, nameContains)
  {
    if files != [] {
      var init := files[..|files| - 1];
      var last := files[|files| - 1];
      assert files == init + [last];
      FiltersCompose(init, fileType, uploaderId, nameContains);
      var a := Chosen(init, fileType, None, None);
      var b := Chosen(a, None, uploaderId, None);
      ChosenSnoc(init, last, fileType, None, None);
      ChosenSnoc(init, last, fileType, uploaderId, nameContains);
      if Wanted(last, fileType, None, None) {
        ChosenSnoc(a, last, None, uploaderId, None);
        if Wanted(last, None, uploaderId, None) {
          ChosenSnoc(b, last, None, None, nameContains);
        }
      }
    }
  }

  /** find_files, with its filtering loop. */
  method FindFiles(files: seq<FileRecord>, fileType: Option<string>, uploaderId: Option<int>, nameContains: Option<string>)
    returns (r: seq<FileRecord>)
    ensures r == Chosen(files, fileType, uploaderId, nameContains)
    ensures forall f :: f in r <==> f in files && Wanted(f, fileType, uploaderId, nameContains)
  {
    r := [];
    var i := 0;
    while i < |files|
      invariant 0 <= i <= |files|
      invariant r == Chosen(files[..i], fileType, uploaderId, nameContains)
    {
      assert files[..i + 1][..i] == files[..i];
      var f := files[i];
      if fileType.Some? && f.fileType != fileType.value {
      } else if uploaderId.Some? && f.uploaderId != Some(uploaderId.value) {
      } else if nameContains.Some? && !Contains(Lower(f.originalName), Lower(nameContains.value)) {
      } else {
        r := r + [f];
      }
      i := i + 1;
    }
    assert files[..i] == files;
  }

  function FileIndex(files: seq<FileRecord>, id: int): (r: Option<nat>)
    ensures r.Some? ==> r.value < |files| && files[r.value].id == id
    ensures r.Some? ==> forall j :: 0 <= j < r.value ==> files[j].id != id
    ensures r.None? ==> forall j :: 0 <= j < |files| ==> files[j].id != id
  {
    FindFirst(files, (f: FileRecord) => f.id == id)
  }

  /** get_file_by_id: the first record with that id, or none. */
  function GetFileById(files: seq<FileRecord>, id: int): (r: Option<FileRecord>)
    ensures r.None? <==> forall j :: 0 <= j < |files| ==> files[j].id != id
    ensures r.Some? ==> exists k :: && 0 <= k < |files| && files[k] == r.value && r.value.id == id
                                    && forall j :: 0 <= j < k ==> files[j].id != id
  {
    match FileIndex(files, id)
    case None => None
    case Some(k) => Some(files[k])
  }

  /** delete_file: removes the first record with that id and keeps the rest in order. */
  method DeleteFile(db: Store, id: int) returns (r: bool)
    modifies db
    ensures db.users == old(db.users) && db.messages == old(db.messages) && db.defenses == old(db.defenses)
    ensures r <==> FileIndex(old(db.files), id).Some?
    ensures !r ==> db.files == old(db.files)
    ensures r ==> var k := FileIndex(old(db.files), id).value;
                  db.files == old(db.files)[..k] + old(db.files)[k + 1..]
    ensures old(db.Valid()) ==> db.Valid()
    ensures old(db.Valid() && db.CapacitiesRespected()) ==> db.CapacitiesRespected()
  {
    var i := 0;
    while i < |db.files|
      invariant 0 <= i <= |db.files|
      invariant forall j :: 0 <= j < i ==> db.files[j].id != id
    {
      if db.files[i].id == id {
        assert FileIndex(db.files, id) == Some(i);
        RemovalKeepsRules(db.users, db.files, i);
        db.files := db.files[..i] + db.files[i + 1..];
        return true;
      }
      i := i + 1;
    }
    r := false;
  }

  /** Removing one record keeps the others' ids distinct and their references valid. */
  lemma RemovalKeepsRules(users: seq<User>, files: seq<FileRecord>, k: nat)
    requires k < |files|
    ensures DistinctIds(files, FileId) ==> DistinctIds(files[..k] + files[k + 1..], FileId)
    ensures FilesResolve(users, files) ==> FilesResolve(users, files[..k] + files[k + 1..])
    ensures multiset(files[..k] + files[k + 1..]) + multiset{files[k]} == multiset(files)
  {
    var rest := files[..k] + files[k + 1..];
    assert forall j :: 0 <= j < |rest| ==> rest[j] == files[if j < k then j else j + 1];
    assert files == files[..k] + [files[k]] + files[k + 1..];
  }

  /** Ids are max + 1 over the current records, so deleting the newest file
      hands its id to the next registration. */
  lemma DeletedNewestIdReused(a: FileRecord, b: FileRecord)
    requires a.id == 1 && b.id == 2
    ensures NextFileId([a, b]) == 3
    ensures FileIndex([a, b], 2) == Some(1)
    ensures NextFileId([a, b][..1] + [a, b][2..]) == b.id
  {
    assert [a, b][..1] + [a, b][2..] == [a];
  }
}
