/** The folder routes that read and change the folder/file tree: listing,
    folder creation, rename, move, delete, parent lookup and search. Only
    listing and search are scoped to the requesting user; rename, move,
    delete and parent lookup act on whatever record carries the id. */
module Hierarchy {
  import opened Common
  import opened Records
  import opened Strings

  /** The `{ folders, files }` body of a listing or search reply. */
  datatype Listing = Listing(folders: seq<Folder>, files: seq<File>)

  /* ---------------------------------------------------------------- listing */

  /** One level of the tree: the owner's folders and files whose parent is
      `parent` (None is root), in store order. */
  function ListChildren(s: Store, owner: UserId, parent: Option<Id>): (r: Listing)
    ensures forall f :: f in r.folders <==> f in s.folders && f.user == owner && f.parentId == parent
    ensures forall f :: f in r.files <==> f in s.files && f.user == owner && f.parentId == parent
  {
    Listing(Filter(s.folders, (f: Folder) => f.user == owner && f.parentId == parent),
            Filter(s.files, (f: File) => f.user == owner && f.parentId == parent))
  }

  /** `GET /`: a falsy `folderId` query parameter lists the root level. */
  function ListRoute(s: Store, owner: UserId, folderId: Option<string>): (r: Listing)
    ensures forall f :: f in r.folders <==>
      f in s.folders && f.user == owner && (if Falsy(folderId) then f.parentId.None? else f.parentId == folderId)
    ensures forall f :: f in r.files <==>
      f in s.files && f.user == owner && (if Falsy(folderId) then f.parentId.None? else f.parentId == folderId)
  {
    if Falsy(folderId) then ListChildren(s, owner, None) else ListChildren(s, owner, folderId)
  }

  /** Listing never reaches below one level: a record whose parent is itself
      listed under `parent` is not listed, unless it names `parent` too. */
  lemma ListingIsOneLevel(s: Store, owner: UserId, parent: Option<Id>, sub: Folder, f: File)
    requires sub in ListChildren(s, owner, parent).folders
    requires f in s.files && f.parentId == Some(sub.id) && Some(sub.id) != parent
    ensures f !in ListChildren(s, owner, parent).files
  {
  }

  /* --------------------------------------------------------------- creation */

  /** `POST /`: a new folder owned by the requester; a falsy `parentId`
      is stored as null (root). The store supplies the fresh `id`. */
  function CreateFolder(s: Store, owner: UserId, name: string, parentId: Option<string>, id: Id): (r: (Folder, Store))
    ensures r.0.id == id && r.0.name == name && r.0.user == owner
    ensures Falsy(parentId) ==> r.0.parentId.None?
    ensures !Falsy(parentId) ==> r.0.parentId == parentId
    ensures r.1.folders == s.folders + [r.0] && r.1.files == s.files
  {
    var folder := Folder(id, name, owner, if Falsy(parentId) then None else parentId);
    (folder, Store(s.folders + [folder], s.files))
  }

  lemma CreateFolderKeepsIdsUnique(s: Store, owner: UserId, name: string, parentId: Option<string>, id: Id)
    requires UniqueIds(s) && FindFolder(s, id).None?
    ensures UniqueIds(CreateFolder(s, owner, name, parentId, id).1)
  {
    var s' := CreateFolder(s, owner, name, parentId, id).1;
    assert s'.folders[|s.folders|].id == id;
    assert forall i :: 0 <= i < |s.folders| ==> s'.folders[i] == s.folders[i] && s.folders[i] in s.folders;
  }

  /** After creation the new folder is listed last in its parent's listing
      for its owner, and every other listing is unchanged. In particular a
      folder created with a falsy parent appears at the owner's root. */
  lemma {:induction false} ListAfterCreate(s: Store, owner: UserId, name: string, parentId: Option<string>, id: Id,
                                           who: UserId, parent: Option<Id>)
    ensures var (folder, s') := CreateFolder(s, owner, name, parentId, id);
      ListChildren(s', who, parent) ==
        if who == owner && parent == folder.parentId
        then Listing(ListChildren(s, who, parent).folders + [folder], ListChildren(s, who, parent).files)
        else ListChildren(s, who, parent)
  {
    var (folder, s') := CreateFolder(s, owner, name, parentId, id);
    var p := (f: Folder) => f.user == who && f.parentId == parent;
    FilterConcat(s.folders, [folder], p);
    assert Filter([folder], p) == (if p(folder) then [folder] else []) + Filter([folder][1..], p);
  }

  /* ----------------------------------------------------------------- rename */

  /** Pointwise frame for a folder rename: records keep their order, id,
      owner and parent; those with id `id` get `name`, the others are untouched. */
  ghost predicate OnlyFolderNameChanged(a: seq<Folder>, b: seq<Folder>, id: Id, name: string) {
    |a| == |b| &&
    forall i :: 0 <= i < |a| ==>
      && b[i].id == a[i].id && b[i].user == a[i].user && b[i].parentId == a[i].parentId
      && (a[i].id == id ==> b[i].name == name)
      && (a[i].id != id ==> b[i] == a[i])
  }

  /** Pointwise frame for a file rename: only `filename` of the record(s)
      with id `id` changes. */
  ghost predicate OnlyFilenameChanged(a: seq<File>, b: seq<File>, id: Id, name: string) {
    |a| == |b| &&
    forall i :: 0 <= i < |a| ==>
      && b[i].id == a[i].id && b[i].user == a[i].user && b[i].path == a[i].path
      && b[i].mimetype == a[i].mimetype && b[i].size == a[i].size
      && b[i].uploadDate == a[i].uploadDate && b[i].parentId == a[i].parentId
      && (a[i].id == id ==> b[i].filename == name)
      && (a[i].id != id ==> b[i] == a[i])
  }

  function SetFolderName(fs: seq<Folder>, id: Id, name: string): seq<Folder> {
    seq(|fs|, i requires 0 <= i < |fs| => if fs[i].id == id then fs[i].(name := name) else fs[i])
  }

  function SetFilename(fs: seq<File>, id: Id, name: string): seq<File> {
    seq(|fs|, i requires 0 <= i < |fs| => if fs[i].id == id then fs[i].(filename := name) else fs[i])
  }

  /** `PUT /rename`. A file's new name goes through the schema's validation
      on save, so an empty name is a server error; a folder's name is
      stored as given. An `itemType` that is neither "file" nor "folder"
      answers success and changes nothing. */
  function Rename(s: Store, itemId: Id, itemType: string, newName: string): (r: Result<Store>)
    ensures itemType != "file" && itemType != "folder" ==> r == Ok(s)
    ensures itemType == "file" ==> (r == Err(NotFound) <==> FindFile(s, itemId).None?)
    ensures itemType == "file" && FindFile(s, itemId).Some? && ValidFile(FindFile(s, itemId).value) ==>
      (r == Err(ServerError) <==> newName == "")
    ensures itemType == "file" && FindFile(s, itemId).Some? && ValidFile(FindFile(s, itemId).value) ==>
      (r.Ok? <==> newName != "")
    ensures itemType == "folder" ==> (r == Err(NotFound) <==> FindFolder(s, itemId).None?)
    ensures itemType == "folder" ==> (r.Ok? <==> FindFolder(s, itemId).Some?)
    ensures r.Ok? && itemType == "file" ==>
      r.value.folders == s.folders && OnlyFilenameChanged(s.files, r.value.files, itemId, newName)
    ensures r.Ok? && itemType == "folder" ==>
      r.value.files == s.files && OnlyFolderNameChanged(s.folders, r.value.folders, itemId, newName)
  {
    if itemType == "file" then
      match FindFile(s, itemId)
      case None => Err(NotFound)
      case Some(f) =>
        match SaveFile(Draft(f).(filename := Some(newName)), f.id, f.uploadDate)
        case None => Err(ServerError)
        case Some(_) => Ok(s.(files := SetFilename(s.files, itemId, newName)))
    else if itemType == "folder" then
      match FindFolder(s, itemId)
      case None => Err(NotFound)
      case Some(_) => Ok(s.(folders := SetFolderName(s.folders, itemId, newName)))
    else Ok(s)
  }

  /** Renaming an item to the name it already has leaves the store equal. */
  lemma RenameToSameName(s: Store, itemId: Id, itemType: string)
    requires UniqueIds(s)
    requires itemType == "folder" ==> FindFolder(s, itemId).Some?
    requires itemType == "file" ==> FindFile(s, itemId).Some? && ValidFile(FindFile(s, itemId).value)
    ensures itemType == "folder" ==> Rename(s, itemId, itemType, FindFolder(s, itemId).value.name) == Ok(s)
    ensures itemType == "file" ==> Rename(s, itemId, itemType, FindFile(s, itemId).value.filename) == Ok(s)
  {
    if itemType == "folder" {
      var f := FindFolder(s, itemId).value;
      var fs := SetFolderName(s.folders, itemId, f.name);
      forall i | 0 <= i < |s.folders| ensures fs[i] == s.folders[i] {
        if s.folders[i].id == itemId {
          FindFolderUnique(s, s.folders[i]);
        }
      }
      assert fs == s.folders;
    } else if itemType == "file" {
      var f := FindFile(s, itemId).value;
      var fs := SetFilename(s.files, itemId, f.filename);
      forall i | 0 <= i < |s.files| ensures fs[i] == s.files[i] {
        if s.files[i].id == itemId {
          FindFileUnique(s, s.files[i]);
        }
      }
      assert fs == s.files;
    }
  }

  /* ------------------------------------------------------------------- move */

  ghost predicate OnlyFolderParentChanged(a: seq<Folder>, b: seq<Folder>, id: Id, target: Option<Id>) {
    |a| == |b| &&
    forall i :: 0 <= i < |a| ==>
      && b[i].id == a[i].id && b[i].user == a[i].user && b[i].name == a[i].name
      && (a[i].id == id ==> b[i].parentId == target)
      && (a[i].id != id ==> b[i] == a[i])
  }

  ghost predicate OnlyFileParentChanged(a: seq<File>, b: seq<File>, id: Id, target: Option<Id>) {
    |a| == |b| &&
    forall i :: 0 <= i < |a| ==>
      && b[i].id == a[i].id && b[i].user == a[i].user && b[i].filename == a[i].filename
      && b[i].path == a[i].path && b[i].mimetype == a[i].mimetype && b[i].size == a[i].size
      && b[i].uploadDate == a[i].uploadDate
      && (a[i].id == id ==> b[i].parentId == target)
      && (a[i].id != id ==> b[i] == a[i])
  }

  function SetFolderParent(fs: seq<Folder>, id: Id, target: Option<Id>): seq<Folder> {
    seq(|fs|, i requires 0 <= i < |fs| => if fs[i].id == id then fs[i].(parentId := target) else fs[i])
  }

  function SetFileParent(fs: seq<File>, id: Id, target: Option<Id>): seq<File> {
    seq(|fs|, i requires 0 <= i < |fs| => if fs[i].id == id then fs[i].(parentId := target) else fs[i])
  }

  /** `PUT /move`: the item's parent becomes `target` (None is root). There
      is no check that the target exists or that a folder is not moved
      under itself. A file is saved again, so the schema's validation runs
      and a record that fails it is a server error. An unknown `itemType`
      answers success and changes nothing. */
  function Move(s: Store, itemId: Id, itemType: string, target: Option<Id>): (r: Result<Store>)
    ensures itemType != "file" && itemType != "folder" ==> r == Ok(s)
    ensures itemType == "file" ==> (r == Err(NotFound) <==> FindFile(s, itemId).None?)
    ensures itemType == "file" ==> (r == Err(ServerError) <==> FindFile(s, itemId).Some? && !ValidFile(FindFile(s, itemId).value))
    ensures itemType == "file" ==> (r.Ok? <==> FindFile(s, itemId).Some? && ValidFile(FindFile(s, itemId).value))
    ensures itemType == "folder" ==> (r.Ok? <==> FindFolder(s, itemId).Some?)
    ensures itemType == "folder" && r.Err? ==> r.error == NotFound
    ensures r.Ok? && itemType == "file" ==>
      r.value.folders == s.folders && OnlyFileParentChanged(s.files, r.value.files, itemId, target)
    ensures r.Ok? && itemType == "folder" ==>
      r.value.files == s.files && OnlyFolderParentChanged(s.folders, r.value.folders, itemId, target)
  {
    if itemType == "file" then
      match FindFile(s, itemId)
      case None => Err(NotFound)
      case Some(f) =>
        match SaveFile(Draft(f).(parentId := target), f.id, f.uploadDate)
        case None => Err(ServerError)
        case Some(_) => Ok(s.(files := SetFileParent(s.files, itemId, target)))
    else if itemType == "folder" then
      match FindFolder(s, itemId)
      case None => Err(NotFound)
      case Some(_) => Ok(s.(folders := SetFolderParent(s.folders, itemId, target)))
    else Ok(s)
  }

  /** Moving a stored file and renaming it to its own name both save the
      record again, so they pass or fail together: exactly when the stored
      record meets the schema. */
  lemma MoveFileRevalidates(s: Store, f: File, target: Option<Id>)
    requires UniqueIds(s) && f in s.files
    ensures Move(s, f.id, "file", target).Ok? <==> ValidFile(f)
    ensures Move(s, f.id, "file", target).Ok? <==> Rename(s, f.id, "file", f.filename).Ok?
  {
    FindFileUnique(s, f);
  }

  /** Move does not refuse a cycle: any stored folder can be made its own parent. */
  lemma MoveIntoItselfAccepted(s: Store, f: Folder)
    requires f in s.folders
    ensures Move(s, f.id, "folder", Some(f.id)).Ok?
    ensures f.(parentId := Some(f.id)) in Move(s, f.id, "folder", Some(f.id)).value.folders
  {
    var s' := Move(s, f.id, "folder", Some(f.id)).value;
    var i :| 0 <= i < |s.folders| && s.folders[i] == f;
    assert s'.folders[i] == f.(parentId := Some(f.id));
  }

  /** A folder moved to root shows up in its owner's root listing and in no
      other folder's listing. */
  lemma {:induction false} MoveToRootRelists(s: Store, f: Folder, parent: Id)
    requires UniqueIds(s) && f in s.folders
    ensures var s' := Move(s, f.id, "folder", None).value;
      && f.(parentId := None) in ListChildren(s', f.user, None).folders
      && forall g :: g in ListChildren(s', f.user, Some(parent)).folders ==> g.id != f.id
  {
    var s' := Move(s, f.id, "folder", None).value;
    var i :| 0 <= i < |s.folders| && s.folders[i] == f;
    assert s'.folders[i] == f.(parentId := None);
    forall g | g in ListChildren(s', f.user, Some(parent)).folders ensures g.id != f.id {
      var j :| 0 <= j < |s'.folders| && s'.folders[j] == g;
      assert s.folders[j].id == f.id ==> g.parentId == None;
    }
  }

  /* ----------------------------------------------------------------- delete */

  /** `DELETE /:id`: removes the record with that id and nothing else: no
      cascade to children, no change to stored bytes. An `itemType` that is
      neither "file" nor "folder" is invalid input. */
  function Delete(s: Store, itemId: Id, itemType: string): (r: Result<Store>)
    ensures itemType != "file" && itemType != "folder" ==> r == Err(InvalidInput)
    ensures itemType == "file" ==> (r.Ok? <==> FindFile(s, itemId).Some?)
    ensures itemType == "folder" ==> (r.Ok? <==> FindFolder(s, itemId).Some?)
    ensures (itemType == "file" || itemType == "folder") && r.Err? ==> r.error == NotFound
    ensures r.Ok? && itemType == "file" ==>
      r.value.folders == s.folders && forall f :: f in r.value.files <==> f in s.files && f.id != itemId
    ensures r.Ok? && itemType == "folder" ==>
      r.value.files == s.files && forall f :: f in r.value.folders <==> f in s.folders && f.id != itemId
  {
    if itemType == "file" then
      match FindFile(s, itemId)
      case None => Err(NotFound)
      case Some(_) => Ok(s.(files := Filter(s.files, (f: File) => f.id != itemId)))
    else if itemType == "folder" then
      match FindFolder(s, itemId)
      case None => Err(NotFound)
      case Some(_) => Ok(s.(folders := Filter(s.folders, (f: Folder) => f.id != itemId)))
    else Err(InvalidInput)
  }

  /** With unique ids, deleting an existing item removes exactly one record. */
  lemma DeleteRemovesOne(s: Store, itemId: Id, itemType: string)
    requires UniqueIds(s)
    requires itemType == "file" ==> FindFile(s, itemId).Some?
    requires itemType == "folder" ==> FindFolder(s, itemId).Some?
    requires itemType == "file" || itemType == "folder"
    ensures itemType == "file" ==> |Delete(s, itemId, itemType).value.files| == |s.files| - 1
    ensures itemType == "folder" ==> |Delete(s, itemId, itemType).value.folders| == |s.folders| - 1
  {
    if itemType == "file" {
      var k :| 0 <= k < |s.files| && s.files[k] == FindFile(s, itemId).value;
      FilterDropsOne(s.files, (f: File) => f.id != itemId, k);
    } else {
      var k :| 0 <= k < |s.folders| && s.folders[k] == FindFolder(s, itemId).value;
      FilterDropsOne(s.folders, (f: Folder) => f.id != itemId, k);
    }
  }

  /** Deleting a folder leaves its children in place, still naming the
      folder that no longer exists as their parent. */
  lemma DeleteFolderOrphansChildren(s: Store, id: Id)
    requires FindFolder(s, id).Some?
    ensures var s' := Delete(s, id, "folder").value;
      && FindFolder(s', id).None?
      && (forall c :: c in s.folders && c.parentId == Some(id) && c.id != id ==> c in s'.folders)
      && (forall f :: f in s.files && f.parentId == Some(id) ==> f in s'.files)
  {
  }

  /* ---------------------------------------------------------- parent lookup */

  /** `GET /parent/:folderId`: NotFound when the folder does not exist;
      otherwise its parent folder, or None when it sits at root or its
      parent no longer exists. */
  function GetParent(s: Store, folderId: Id): (r: Result<Option<Folder>>)
    ensures r == Err(NotFound) <==> FindFolder(s, folderId).None?
    ensures r.Ok? <==> FindFolder(s, folderId).Some?
    ensures r.Ok? && r.value.Some? ==>
      r.value.value in s.folders && FindFolder(s, folderId).value.parentId == Some(r.value.value.id)
    ensures r.Ok? && r.value.None? ==>
      forall p :: p in s.folders ==> FindFolder(s, folderId).value.parentId != Some(p.id)
  {
    match FindFolder(s, folderId)
    case None => Err(NotFound)
    case Some(f) =>
      match f.parentId
      case None => Ok(None)
      case Some(pid) => Ok(FindFolder(s, pid))
  }

  /** A folder is listed under the parent that the parent lookup returns. */
  lemma ParentListsChild(s: Store, c: Folder)
    requires UniqueIds(s) && c in s.folders
    requires GetParent(s, c.id).Ok? && GetParent(s, c.id).value.Some?
    ensures c in ListChildren(s, c.user, Some(GetParent(s, c.id).value.value.id)).folders
  {
    FindFolderUnique(s, c);
  }

  /* ----------------------------------------------------------------- search */

  /** `GET /search`: a falsy term is invalid input; otherwise all of the
      owner's folders whose name, and files whose filename, contain the term
      ignoring case, wherever they sit in the tree. The term is matched as
      literal text. */
  function Search(s: Store, owner: UserId, term: Option<string>): (r: Result<Listing>)
    ensures r == Err(InvalidInput) <==> Falsy(term)
    ensures r.Ok? <==> !Falsy(term)
    ensures r.Ok? ==> forall f :: f in r.value.folders <==>
      f in s.folders && f.user == owner && ContainsIgnoringCase(f.name, term.value)
    ensures r.Ok? ==> forall f :: f in r.value.files <==>
      f in s.files && f.user == owner && ContainsIgnoringCase(f.filename, term.value)
  {
    if Falsy(term) then Err(InvalidInput)
    else
      var t := Lower(term.value);
      Ok(Listing(Filter(s.folders, (f: Folder) => f.user == owner && Contains(Lower(f.name), t)),
                 Filter(s.files, (f: File) => f.user == owner && Contains(Lower(f.filename), t))))
  }

  /** The result does not depend on the case of the search term. */
  lemma SearchIgnoresTermCase(s: Store, owner: UserId, a: string, b: string)
    requires Lower(a) == Lower(b)
    ensures Search(s, owner, Some(a)).Ok? ==> Search(s, owner, Some(a)) == Search(s, owner, Some(b))
  {
  }
}
