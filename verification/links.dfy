/** The one-time download links: an in-memory table from token to the item
    it grants, filled by `generate-download-link`, consumed by
    `download/:token`, and emptied by a timer 60 s after issue. Tokens come
    from a random source and the timer from the clock, so both are inputs
    here: the token is a parameter of `Issue` and expiry is the `Expire` event. */
module Links {
  import opened Common
  import opened Records
  import Archive

  /** What a token grants: an item id and the requested item type, as sent. */
  datatype Link = Link(itemId: Id, itemType: string)

  type Table = map<string, Link>

  /** `generate-download-link`: records the token; a token already present
      would be overwritten, which the random 128-bit token makes moot. */
  function Issue(links: Table, token: string, itemId: Id, itemType: string): (r: Table)
    ensures r.Keys == links.Keys + {token}
    ensures r[token] == Link(itemId, itemType)
    ensures forall t :: t in links && t != token ==> r[t] == links[t]
  {
    links[token := Link(itemId, itemType)]
  }

  /** The timer firing for `token`: the entry goes, whether or not a download
      already removed it. */
  function Expire(links: Table, token: string): (r: Table)
    ensures token !in r
    ensures forall t :: t != token ==> (t in r <==> t in links)
    ensures forall t :: t in r ==> r[t] == links[t]
  {
    links - {token}
  }

  /** The reply of the download route. */
  datatype Reply =
    | LinkInvalid                                 // 404 "Link has expired or is invalid."
    | FolderMissing                               // 404 "Folder not found."
    | FileMissing                                 // 404 "File not found."
    | TransferFailed                              // 500, the transfer reported an error
    | SentFile(source: string, name: string)      // the stored bytes under the display name
    | SentArchive(name: string, entries: seq<Entry>) // "<folder name>.zip" with these entries
    | NoReply                                     // the archive descent never finishes

  type Entry = Archive.Entry

  predicate Sent(r: Reply) {
    r.SentFile? || r.SentArchive?
  }

  /** `download/:token`. An unknown token is refused. Item type "folder"
      archives the folder; any other item type is looked up as a file. The
      token is removed only after a transfer that reports no error
      (`transferOk`); every other outcome leaves the table as it was.
      `fuel` bounds the archive descent (see `Archive.Entries`). */
  function Download(s: Store, links: Table, token: string, fuel: nat, transferOk: bool): (r: (Reply, Table))
    ensures r.0 == LinkInvalid <==> token !in links
    ensures Sent(r.0) ==> transferOk && token in links && r.1 == links - {token}
    ensures !Sent(r.0) ==> r.1 == links
    ensures r.0.SentFile? ==>
      && links[token].itemType != "folder"
      && exists f :: f in s.files && f.id == links[token].itemId && r.0 == SentFile(f.path, f.filename)
    ensures r.0.SentArchive? ==>
      && links[token].itemType == "folder"
      && exists f :: f in s.folders && f.id == links[token].itemId && r.0.name == f.name + ".zip"
                     && Archive.Entries(s, f, "", fuel) == Some(r.0.entries)
    ensures r.0 == FolderMissing <==>
      token in links && links[token].itemType == "folder" && FindFolder(s, links[token].itemId).None?
    ensures r.0 == FileMissing <==>
      token in links && links[token].itemType != "folder" &&
      (FindFile(s, links[token].itemId).None? || FindFile(s, links[token].itemId).value.path == "")
    ensures r.0 == NoReply <==>
      && token in links && links[token].itemType == "folder" && FindFolder(s, links[token].itemId).Some?
      && Archive.Entries(s, FindFolder(s, links[token].itemId).value, "", fuel).None?
    ensures (&& transferOk && token in links && links[token].itemType != "folder"
             && FindFile(s, links[token].itemId).Some? && FindFile(s, links[token].itemId).value.path != "")
            ==> r.0.SentFile?
    ensures (&& transferOk && token in links && links[token].itemType == "folder"
             && FindFolder(s, links[token].itemId).Some?
             && Archive.Entries(s, FindFolder(s, links[token].itemId).value, "", fuel).Some?)
            ==> r.0.SentArchive?
  {
    if token !in links then (LinkInvalid, links)
    else
      var link := links[token];
      if link.itemType == "folder" then
        match FindFolder(s, link.itemId)
        case None => (FolderMissing, links)
        case Some(f) =>
          match Archive.Entries(s, f, "", fuel)
          case None => (NoReply, links)
          case Some(es) =>
            if transferOk then (SentArchive(f.name + ".zip", es), links - {token})
            else (TransferFailed, links)
      else
        match FindFile(s, link.itemId)
        case None => (FileMissing, links)
        case Some(f) =>
          if f.path == "" then (FileMissing, links)
          else if transferOk then (SentFile(f.path, f.filename), links - {token})
          else (TransferFailed, links)
  }

  /* -------------------------------------------------------------- lifecycle */

  /** Issuing a fresh token adds exactly that entry. */
  lemma IssueFreshAddsOne(links: Table, token: string, itemId: Id, itemType: string)
    requires token !in links
    ensures |Issue(links, token, itemId, itemType)| == |links| + 1
    ensures Issue(links, token, itemId, itemType) - {token} == links
  {
    var r := Issue(links, token, itemId, itemType);
    assert r.Keys == links.Keys + {token};
    assert (r - {token}).Keys == links.Keys;
  }

  /** Once a successful download has completed, the same token is
      refused, whatever the store then holds. (The token is removed only
      when the transfer finishes, so requests overlapping a transfer are
      outside this sequential model.) */
  lemma SingleUse(s: Store, links: Table, token: string, fuel: nat, ok: bool,
                  s': Store, fuel': nat, ok': bool)
    requires Sent(Download(s, links, token, fuel, ok).0)
    ensures Download(s', Download(s, links, token, fuel, ok).1, token, fuel', ok') ==
      (LinkInvalid, Download(s, links, token, fuel, ok).1)
  {
  }

  /** An expired token is refused even when its item still exists. */
  lemma ExpiredRefused(s: Store, links: Table, token: string, fuel: nat, ok: bool)
    ensures Download(s, Expire(links, token), token, fuel, ok) == (LinkInvalid, Expire(links, token))
  {
  }

  /** The timer firing after a successful download removes nothing more. */
  lemma ExpireAfterDownloadIsNoop(s: Store, links: Table, token: string, fuel: nat, ok: bool)
    requires Sent(Download(s, links, token, fuel, ok).0)
    ensures Expire(Download(s, links, token, fuel, ok).1, token) == Download(s, links, token, fuel, ok).1
  {
  }

  /** Issue a fresh link for a stored file and use it: the file is sent under
      its display name and the table is back to what it was. */
  lemma {:induction false} IssueThenDownloadFile(s: Store, links: Table, token: string, f: File, fuel: nat)
    requires token !in links && UniqueIds(s) && f in s.files && f.path != ""
    ensures Download(s, Issue(links, token, f.id, "file"), token, fuel, true) == (SentFile(f.path, f.filename), links)
  {
    FindFileUnique(s, f);
    IssueFreshAddsOne(links, token, f.id, "file");
  }

  /** Issue a fresh link for a stored folder on an acyclic store and use it:
      the archive is sent and the table is back to what it was. */
  lemma {:induction false} IssueThenDownloadFolder(s: Store, links: Table, token: string, f: Folder,
                                                   rank: Id -> nat, fuel: nat)
    requires token !in links && UniqueIds(s) && f in s.folders
    requires Archive.Ranked(s, rank) && rank(f.id) < fuel
    ensures Archive.Entries(s, f, "", fuel).Some?
    ensures Download(s, Issue(links, token, f.id, "folder"), token, fuel, true) ==
      (SentArchive(f.name + ".zip", Archive.Entries(s, f, "", fuel).value), links)
  {
    FindFolderUnique(s, f);
    IssueFreshAddsOne(links, token, f.id, "folder");
    Archive.EntriesTerminate(s, rank, f, "", fuel);
  }

  /** A failed lookup or transfer keeps the token usable until it expires. */
  lemma FailureKeepsToken(s: Store, links: Table, token: string, fuel: nat, ok: bool)
    requires token in links && !Sent(Download(s, links, token, fuel, ok).0)
    ensures token in Download(s, links, token, fuel, ok).1
  {
  }
}
