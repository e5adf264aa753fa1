# File storage server: folders, one-time links, uploads

A Dafny model of the server side of a small file-storage application. Users
keep folders and uploaded files in a tree. They can list one level of it,
search it by name, create, rename, move and delete items, look up a folder's
parent, upload files (type-filtered, size-limited, renamed on collision),
and download a file or a whole folder (as a zip) through a one-time link.

The model is written in Dafny's terms:

- **The store** (`Records.Store`) holds the two collections, folders and
  files, each in insertion order. The routes' queries do not sort, and the
  document store promises no order for them; the model fixes that order to
  insertion order (see "Left out"). Queries with a filter document are
  `Common.Filter`, and `findById` is `Common.Find`. Ids are unique; this is
  stated as `Records.UniqueIds` and used by the lemmas that need it.
- **Each route** is a pure function or method from the store (and the
  request's fields) to a reply and a new store. A 404, 400 or 500 is
  `Err(NotFound)`, `Err(InvalidInput)` or `Err(ServerError)`.
- **The upload directory** is the set of names already in it.
- **The one-time link table** is a map from token to `(itemId, itemType)`.
- **The zip archive** is the sequence of `(source path, entry name)` pairs
  that `addFolderToArchive` hands to the archiver.
- **Nondeterministic or external inputs** become parameters: the random
  token, the new document id, the current time, whether the HTTP transfer
  succeeded, and the depth budget of the archive descent.

Modules:

- `Common`: option and result types, JavaScript truthiness, and filter/find
  over sequences.
- `Strings`: ASCII case folding, substring search and decimal rendering.
- `Paths`: `path.extname`, `path.basename` and `path.join` for single-component
  names.
- `Records`: the Folder and File records and the File schema's save-time
  validation.
- `Hierarchy`: listing, creation, rename, move, delete, parent lookup and
  search (`routes/folders.js`).
- `Archive`: the recursive archive descent `addFolderToArchive`.
- `Links`: issuing, expiring and redeeming one-time links.
- `Upload`: the file-type filter, collision-free naming and the upload
  handler (`routes/upload.js`).

Behaviour of the code worth knowing:

- Only listing and search are scoped to the requesting user. Rename, move,
  delete, parent lookup, link issue, download and the archive descent act on
  any record with the given id.
- Rename and move with an item type that is neither "file" nor "folder"
  answer success and change nothing. Delete answers 400 for such an item
  type.
- A file rename or move saves the record again, which re-runs the schema's
  validation: renaming a file to "" fails with a server error, and so does
  moving a stored file that does not meet the schema. A folder rename is modelled as always
  succeeding for a stored folder (see "Left out" on the Folder schema).
- Move accepts any target, including the folder itself. After such a move,
  the folder's archive download never finishes (`Archive.MoveIntoItselfBreaksArchive`).
- Deleting a folder does not cascade: its children remain, still naming the
  deleted parent.
- The file-type filter reports its error as a bare string. The upload reply
  is therefore 400 with an undefined `msg`, not the filter's message.
- `checkFileType` matches the pattern `/jpeg|jpg|png|gif|pdf|doc|docx/`
  against the mimetype it is given without folding its case. A Word 97
  document with its registered mimetype `application/msword` is refused
  (`Upload.MsWordDocumentRejected`). `checkFileType` itself would also refuse
  an upper-case `image/JPEG` (`Upload.UpperCaseMimetypeRejected`), although
  the multipart parser lower-cases the mimetype before it gets there.
- A form part without a file name (a form sent with no file chosen) is
  skipped by the multipart parser, so it is answered "No file selected!"
  like a missing file.
- The collision check `existsSync(join('./uploads/', name))` also reports
  the names "", "." and ".." as taken, because they resolve to existing
  directories (`Upload.Taken`).
- A download whose item type is anything but "folder" is treated as a file
  download. A failed lookup or failed transfer leaves the token in the
  table until its timer fires.

## Model

| member | source | states |
|---|---|---|
| Records.SaveFile | models/File.js:3-33 | saving succeeds exactly when user, filename, path, mimetype and size are present and the strings non-empty; every field is copied, the upload date defaults to the save time, and the saved record is valid |
| Records.SaveDraftRoundTrip | models/File.js:3-33 | loading a valid record and saving it again yields the same record at any time: the date default only fills a missing date |
| Records.MissingRequiredFieldRejected | models/File.js:4-24 | a draft missing any of the five required fields cannot be saved |
| Common.Filter | routes/folders.js:30-38 | a query with a filter document: the result holds exactly the elements satisfying the filter, and is no longer than the collection |
| Common.Find | routes/folders.js:111 | `findById`: a found element is in the collection and satisfies the filter; nothing is found exactly when no element does |
| Records.FindFolder | routes/folders.js:119 | `findById` on folders: the found record is stored and has the id; nothing is found exactly when no stored folder has it |
| Records.FindFile | routes/folders.js:111 | `findById` on files: the found record is stored and has the id; nothing is found exactly when no stored file has it |
| Records.FindFolderUnique | routes/folders.js:150 | with unique ids the lookup returns precisely the stored folder carrying the id |
| Records.FindFileUnique | routes/folders.js:143 | with unique ids the lookup returns precisely the stored file carrying the id |
| Hierarchy.ListChildren | routes/folders.js:199-209 | a folder's listing holds exactly the requester's folders and files whose parent is that folder |
| Hierarchy.ListRoute | routes/folders.js:62-81 | with a falsy folderId the listing is exactly the requester's root-level items, otherwise exactly those whose parent is folderId |
| Hierarchy.ListingIsOneLevel | routes/folders.js:68-73 | a file inside a listed subfolder is not itself part of the listing |
| Hierarchy.CreateFolder | routes/folders.js:85-101 | the new folder has the given name and id, belongs to the requester, sits at root when parentId is falsy and under parentId otherwise, and is appended with nothing else changed |
| Hierarchy.CreateFolderKeepsIdsUnique | routes/folders.js:89-95 | creating a folder under a fresh id keeps all ids unique |
| Hierarchy.ListAfterCreate | routes/folders.js:85-101 | after creation the new folder is in its parent's listing for its owner (last, in the model's insertion order), and every other listing is unchanged |
| Hierarchy.Rename | routes/folders.js:106-133 | an unknown id is NotFound; a stored valid file's rename succeeds exactly when the new name is non-empty (otherwise validation fails); a stored folder's rename succeeds; on success only the named record's name changes; an unknown item type succeeds with no change |
| Hierarchy.RenameToSameName | routes/folders.js:106-133 | renaming an item to its current name leaves the store equal |
| Hierarchy.Move | routes/folders.js:138-162 | a missing item is not found; a stored file is saved again and succeeds exactly when it meets the schema, otherwise a server error; a stored folder always moves; an unknown type succeeds and changes nothing; only the moved record's parent changes, to the target as given |
| Hierarchy.MoveFileRevalidates | routes/folders.js:143-148 | moving a stored file succeeds exactly when the record meets the schema, which is exactly when renaming it to its own name succeeds, since both save it again |
| Hierarchy.MoveIntoItselfAccepted | routes/folders.js:149-156 | any stored folder can be moved under itself: the move succeeds and the folder becomes its own parent |
| Hierarchy.MoveToRootRelists | routes/folders.js:138-162 | a folder moved to root appears in its owner's root listing and in no folder's listing |
| Hierarchy.Delete | routes/folders.js:167-194 | an unknown item type is invalid input; a missing item is NotFound; otherwise exactly the records with that id disappear from their collection and the other collection is unchanged |
| Hierarchy.DeleteRemovesOne | routes/folders.js:171-186 | with unique ids, deleting an existing item shortens its collection by exactly one |
| Hierarchy.DeleteFolderOrphansChildren | routes/folders.js:179-186 | a deleted folder is gone while its subfolders and files all remain |
| Hierarchy.GetParent | routes/folders.js:214-228 | NotFound exactly when the folder is missing and success exactly when it is stored; then a stored folder that is its parent, or none when it is at root or its parent is gone |
| Hierarchy.ParentListsChild | routes/folders.js:214-228 | a folder appears in the listing of the parent that the parent lookup returns |
| Hierarchy.Search | routes/folders.js:22-45 | a falsy term is invalid input and any other term succeeds, with exactly the requester's folders and files, at any depth, whose name contains the term ignoring case |
| Hierarchy.SearchIgnoresTermCase | routes/folders.js:30-38 | terms that differ only in letter case give the same search result |
| Strings.Contains | routes/folders.js:32 | the substring search answers true exactly when the term occurs at some index |
| Strings.Lower | routes/upload.js:42 | `toLowerCase` on ASCII: the result has no upper-case letter, agrees with the input up to letter case, and a string with no upper-case letter comes back unchanged |
| Strings.Decimal | routes/upload.js:22 | the counter in a template literal: a non-empty string of decimal digits |
| Strings.DecimalRoundTrip | routes/upload.js:22 | the decimal rendering of the counter reads back as the counter |
| Paths.ExtName | routes/upload.js:15 | the extension is a suffix of the name; it is non-empty exactly when a dot occurs after the first character (and the name is not ".."), and then it starts with its only dot |
| Paths.Join | routes/folders.js:326-331 | `path.join` of two segments: an empty side contributes nothing, otherwise the two with one '/' between |
| Paths.JoinSlashed | routes/folders.js:326-331 | joining a non-empty segment onto slash-separated non-empty segments appends it as one more segment, so repeated joins give `a/b/c` |
| Paths.BaseName | routes/upload.js:16 | the base name followed by the extension is the original name |
| Archive.FilesIn | routes/folders.js:328 | the files directly in the folder, of any owner |
| Archive.FoldersIn | routes/folders.js:334 | the folders directly in the folder, of any owner |
| Archive.Entries | routes/folders.js:325-338 | `addFolderToArchive`: every entry of a finished descent copies the bytes of a stored file that sits in some folder, so root-level files are never archived |
| Archive.FileEntries | routes/folders.js:329-332 | the own-files loop adds one entry per file, in query order, with the file's stored path as source; `Archive.FileEntriesOwnFiles` ties each entry to the reference description |
| Archive.FileEntriesOwnFiles | routes/folders.js:327-332 | each entry of the own-files loop is the entry the reference description gives the file through the one-folder chain, and that chain reaches the file |
| Archive.EntriesOf | routes/folders.js:334-337 | the subfolder loop: every entry it produces copies the bytes of a stored file that sits in some folder |
| Archive.EntriesSound | routes/folders.js:325-338 | every archive entry is the entry of a file reachable from the folder through stored subfolders, named by the folder-name path that reaches it |
| Archive.ChainPathSlashed | routes/folders.js:325-326 | descending a chain of named folders below a slash-separated path appends each folder's name as one more segment |
| Archive.EntryNameSlashed | routes/folders.js:325-331 | from an archive root of "", the entry a file should have is named by the chain's folder names and then the file's display name, joined with '/' |
| Archive.EntryNamesSlashed | routes/folders.js:325-338 | when every stored name is non-empty, each entry the descent produces is named `F/.../sub/filename` along the folder chain that reaches the file |
| Archive.EntriesComplete | routes/folders.js:325-338 | every file reachable from the folder has its entry, under its folder-name path, in the archive |
| Archive.EntriesOnePerFile | routes/folders.js:325-338 | on a store with unique ids and acyclic parent links, the archive has one entry per reachable file: entry i is the i-th visited file's entry, named by a folder chain that reaches it; no file is visited twice; the visited files are exactly the reachable ones |
| Archive.ReachUnique | routes/folders.js:325-338 | on a store with unique ids and acyclic parent links, a file is reached from a folder by one chain of folders only, so its entry name is determined |
| Archive.VisitedDistinct | routes/folders.js:328-337 | on a store with unique ids and acyclic parent links, the descent visits no file twice: a folder's own files and its subfolders' subtrees are disjoint |
| Archive.OwnFilesFirst | routes/folders.js:328-336 | a folder's own files come first, in the model's query order, named under the folder's path, before anything from subfolders |
| Archive.EmptySubtreeContributesNothing | routes/folders.js:325-338 | a folder with no file anywhere below it yields an empty archive |
| Archive.EntriesFuelMonotone | routes/folders.js:325-338 | once the descent finishes within a depth budget, a larger budget gives the same entries |
| Archive.EntriesTerminate | routes/folders.js:325-338 | on a store whose parent links are acyclic (ranked), the descent finishes once the budget exceeds the folder's rank |
| Archive.SelfParentNeverFinishes | routes/folders.js:334-337 | a folder that is its own parent makes the descent fail to finish for every budget |
| Archive.MoveIntoItselfBreaksArchive | routes/folders.js:149-156 | after a folder is moved into itself, archiving it never finishes |
| Links.Issue | routes/folders.js:234-246 | the table gains the token mapped to the item id and type, and every other entry is kept |
| Links.Expire | routes/folders.js:241-243 | the timer removes the token and keeps every other entry |
| Links.Download | routes/folders.js:249-322 | an unknown token is refused; "folder" sends "<name>.zip" with the folder's archive entries, other item types send the stored file under its display name; missing items are 404; no reply comes exactly when a found folder's descent does not finish; the token is removed only after a successful transfer, and otherwise the table is unchanged |
| Links.IssueFreshAddsOne | routes/folders.js:236-238 | issuing a fresh token adds exactly one entry |
| Links.SingleUse | routes/folders.js:249-316 | once a successful download has completed, the same token is refused, whatever the store then holds |
| Links.ExpiredRefused | routes/folders.js:241-254 | after its timer fires a token is refused even if the item still exists |
| Links.ExpireAfterDownloadIsNoop | routes/folders.js:241-243 | the timer firing after a successful download removes nothing more |
| Links.IssueThenDownloadFile | routes/folders.js:301-316 | issuing a link for a stored file with a path and redeeming it sends that file and restores the table |
| Links.IssueThenDownloadFolder | routes/folders.js:261-300 | on an acyclic store, issuing a link for a folder and redeeming it sends the folder's archive and restores the table |
| Links.FailureKeepsToken | routes/folders.js:253-313 | when a download sends nothing the token stays usable |
| Upload.CheckFileType | routes/upload.js:40-50 | the filter passes exactly when both the lower-cased extension and the mimetype it is given contain an allowed word, and otherwise fails with the fixed message |
| Upload.AcceptedHasExtension | routes/upload.js:40-50 | an accepted file has an extension of a dot and at least three more characters, and a mimetype of at least three characters |
| Upload.ExtensionCaseIgnored | routes/upload.js:42 | names whose extensions differ only in letter case are filtered alike |
| Upload.PdfAccepted | routes/upload.js:40-50 | "Report.PDF" sent as "application/pdf" passes the filter |
| Upload.MsWordDocumentRejected | routes/upload.js:41-43 | "letter.doc" sent as "application/msword" is refused: no allowed word occurs in that mimetype |
| Upload.UpperCaseMimetypeRejected | routes/upload.js:43 | `checkFileType` refuses "photo.jpg" with mimetype "image/JPEG", because it does not fold the mimetype's case |
| Upload.CandidateInjective | routes/upload.js:22 | different counters give different alternative names |
| Upload.ChosenNameUnique | routes/upload.js:13-28 | the naming rule determines at most one name |
| Upload.ChooseFilename | routes/upload.js:13-28 | the chosen name is free; it is the original name when that is free, and otherwise base-k.ext for the smallest k whose alternative is free |
| Upload.Taken | routes/upload.js:21 | the collision check sees every stored name and "", "." and ".." as existing, and every other name as free |
| Upload.ChosenNameIsNew | routes/upload.js:18-26 | the chosen name is not yet stored and is none of "", "." and "..", so storing it adds exactly one name |
| Upload.Candidate | routes/upload.js:22 | the alternative `base-k.ext` is one character plus the digits of k longer than the original name, so it never repeats it |
| Upload.HandleUpload | routes/upload.js:55-95 | no file, or a part without a file name, gives 400 "No file selected!"; a refused type gives 400 with no message; an oversize file gives 400 "File too large…"; status 200 holds exactly when the file is present, named, accepted and within 100 MiB, and then the copy is stored under the chosen name and one root-level record owned by the requester is appended; every other reply leaves store and directory unchanged |

## Left out

- Query order: `find` without a sort has no order the document store guarantees. The model returns results in insertion order. So the position claims of Hierarchy.ListAfterCreate ("last") and Archive.OwnFilesFirst (own files "in query order") hold for that order, and membership holds for any order.
- Hierarchy.ListAfterCreate: "last in the listing" holds for the model's insertion order only; the program promises membership.
- Archive.OwnFilesFirst: own files come before subfolder entries in any order; their order among themselves is the model's insertion order.
- Archive.EntryNamesSlashed: stated for stores whose folder and file names are all non-empty. `path.join` drops an empty segment (as `Paths.Join` models), so with an empty name the entry has fewer segments than the chain.
- Authentication is left out: `authMiddleware` only supplies the requester's id, which is a parameter here.
- The HTTP layer, JSON encoding and the exact reply strings of the folder routes are left out. Their errors are `NotFound`, `InvalidInput` and `ServerError`.
- Store failures and id cast errors (a malformed ObjectId) are left out. The catch blocks that turn them into 500 are not modelled.
- The Folder schema (models/Folder.js) is not part of this model. Folder names are stored as given, with no validation.
- The schema's `ref: 'Folder'` on a file's `parentId` is a hint the store does not enforce. The model keeps `parentId` as an id string, which may name no folder (see `Hierarchy.DeleteFolderOrphansChildren`).
- A rename request without `newName` is left out: the new name is always a string here.
- Search and file-type matching treat the search term as literal text with ASCII case folding. Regular-expression metacharacters in a search term, and Unicode case folding, are not modelled.
- `path.join` is modelled without normalisation of "." and ".." segments. File and folder names containing '/' are not modelled.
- Zip compression, the temporary zip file, the archiver's errors and the streamed bytes are left out. The archive is its list of entries.
- The file bytes and `res.download` are left out. Whether the transfer succeeded is the parameter `transferOk`.
- The random token, the new document id, the clock and the 60-second timer are parameters or explicit events. `Links.Expire` is the timer firing.
- Concurrency is left out. Overlapping requests and a timer firing in the middle of a download are not modelled.
- Multer's other errors (e.g. an unexpected field name) are left out. The partial write of an oversize upload, which the parser deletes again, is not modelled: the directory ends as it was.
- The PDF viewer route `/:fileId/view-pdf` and the client are not part of this model.
- Archive.Entries: the descent carries a depth budget `fuel`. With `None` meaning "did not finish", a budget larger than any chain of folders (`Archive.EntriesTerminate`) makes it exact on acyclic stores. On a cyclic store the real descent never returns, and the model shows this only for a folder that is its own parent.
- Links.Download: a folder whose descent does not finish gives `NoReply`. The source keeps recursing and never answers.
- Links.Download: the link table is a map, so a token that was never issued is always refused. In the source the table is a plain object, and a token naming an inherited property (such as "constructor") finds a truthy value with no `itemId`. That request goes down the file branch and is answered 404 "File not found." rather than "Link has expired or is invalid.". The status is the same; the branch is not modelled.
- Upload.UpperCaseMimetypeRejected: the multipart parser lower-cases the part's content type before `checkFileType` sees it. That folding belongs to the parser and is not modelled, so this lemma speaks of `checkFileType` alone.
- Upload.HandleUpload: the skipping of a part without a file name belongs to the multipart parser, which is not part of this model. Its effect, the "No file selected!" reply, is modelled.
