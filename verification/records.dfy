/** The persistent entities: Folder and File records, the store holding both
    collections, and the File schema's save-time validation. */
module Records {
  import opened Common

  /** Document ids and user ids, as the hex strings the routes receive. */
  type Id = string
  type UserId = string

  /** A folder: its name, its owner and its parent folder (None at root). */
  datatype Folder = Folder(id: Id, name: string, user: UserId, parentId: Option<Id>)

  /** A stored file. `path` is where the bytes live, relative to the server
      directory; `uploadDate` is a timestamp in milliseconds; `parentId`
      names a folder, and None (absent or null) means root level. */
  datatype File = File(
    id: Id,
    user: UserId,
    filename: string,
    path: string,
    mimetype: string,
    size: int,
    uploadDate: int,
    parentId: Option<Id>)

  /** Both collections, each in the store's natural (insertion) order. */
  datatype Store = Store(folders: seq<Folder>, files: seq<File>)

  /** The fields of a File document before it is saved; a field never
      assigned is None. */
  datatype FileDraft = FileDraft(
    user: Option<UserId>,
    filename: Option<string>,
    path: Option<string>,
    mimetype: Option<string>,
    size: Option<int>,
    uploadDate: Option<int>,
    parentId: Option<Id>)

  /** The schema's `required` check on a string path: present and non-empty. */
  predicate RequiredString(v: Option<string>) {
    v.Some? && v.value != ""
  }

  /** A stored file whose string fields all pass their `required` check. */
  predicate ValidFile(f: File) {
    f.filename != "" && f.path != "" && f.mimetype != ""
  }

  /** Saving a draft: None is a validation error (a required field is
      missing), otherwise the record with `uploadDate` defaulted to `now`. */
  function SaveFile(d: FileDraft, id: Id, now: int): (r: Option<File>)
    ensures r.Some? <==>
      d.user.Some? && RequiredString(d.filename) && RequiredString(d.path)
      && RequiredString(d.mimetype) && d.size.Some?
    ensures r.Some? ==> ValidFile(r.value)
    ensures r.Some? ==>
      && r.value.id == id
      && Some(r.value.user) == d.user
      && Some(r.value.filename) == d.filename
      && Some(r.value.path) == d.path
      && Some(r.value.mimetype) == d.mimetype
      && Some(r.value.size) == d.size
      && r.value.parentId == d.parentId
    ensures r.Some? && d.uploadDate.None? ==> r.value.uploadDate == now
    ensures r.Some? && d.uploadDate.Some? ==> r.value.uploadDate == d.uploadDate.value
  {
    if d.user.Some? && RequiredString(d.filename) && RequiredString(d.path)
       && RequiredString(d.mimetype) && d.size.Some?
    then
      Some(File(id, d.user.value, d.filename.value, d.path.value, d.mimetype.value,
                d.size.value, if d.uploadDate.Some? then d.uploadDate.value else now, d.parentId))
    else None
  }

  /** The document a stored record loads back as. */
  function Draft(f: File): FileDraft {
    FileDraft(Some(f.user), Some(f.filename), Some(f.path), Some(f.mimetype),
              Some(f.size), Some(f.uploadDate), f.parentId)
  }

  /** Loading a valid record and saving it again gives the same record, at
      any time: the default date applies only when none was stored. */
  lemma SaveDraftRoundTrip(f: File, now: int)
    requires ValidFile(f)
    ensures SaveFile(Draft(f), f.id, now) == Some(f)
  {
  }

  /** A record missing any one required field cannot be saved. */
  lemma MissingRequiredFieldRejected(d: FileDraft, id: Id, now: int)
    requires d.user.None? || d.filename.None? || d.path.None? || d.mimetype.None? || d.size.None?
    ensures SaveFile(d, id, now).None?
  {
  }

  function FindFolder(s: Store, id: Id): (r: Option<Folder>)
    ensures r.Some? ==> r.value in s.folders && r.value.id == id
    ensures r.None? <==> forall f :: f in s.folders ==> f.id != id
  {
    Find(s.folders, (f: Folder) => f.id == id)
  }

  function FindFile(s: Store, id: Id): (r: Option<File>)
    ensures r.Some? ==> r.value in s.files && r.value.id == id
    ensures r.None? <==> forall f :: f in s.files ==> f.id != id
  {
    Find(s.files, (f: File) => f.id == id)
  }

  /** Each collection's ids are unique (the store's primary-key index). */
  ghost predicate UniqueIds(s: Store) {
    && (forall i, j :: 0 <= i < j < |s.folders| ==> s.folders[i].id != s.folders[j].id)
    && (forall i, j :: 0 <= i < j < |s.files| ==> s.files[i].id != s.files[j].id)
  }

  /** With unique ids, a lookup finds the one record carrying that id. */
  lemma FindFolderUnique(s: Store, f: Folder)
    requires UniqueIds(s) && f in s.folders
    ensures FindFolder(s, f.id) == Some(f)
  {
    var g := FindFolder(s, f.id).value;
    var i :| 0 <= i < |s.folders| && s.folders[i] == f;
    var j :| 0 <= j < |s.folders| && s.folders[j] == g;
    assert i == j;
  }

  lemma FindFileUnique(s: Store, f: File)
    requires UniqueIds(s) && f in s.files
    ensures FindFile(s, f.id) == Some(f)
  {
    var g := FindFile(s, f.id).value;
    var i :| 0 <= i < |s.files| && s.files[i] == f;
    var j :| 0 <= j < |s.files| && s.files[j] == g;
    assert i == j;
  }

  /** With unique ids, a stored folder is determined by its id. */
  lemma FolderOfId(s: Store, a: Folder, b: Folder)
    requires UniqueIds(s) && a in s.folders && b in s.folders && a.id == b.id
    ensures a == b
  {
    var i :| 0 <= i < |s.folders| && s.folders[i] == a;
    var j :| 0 <= j < |s.folders| && s.folders[j] == b;
    assert !(i < j) && !(j < i);
  }

  /** With unique ids, no record is stored twice. */
  lemma StoredOnce(s: Store)
    requires UniqueIds(s)
    ensures Distinct(s.folders) && Distinct(s.files)
  {
  }
}
