/** `addFolderToArchive`: the depth-first descent that lists, for a folder,
    the archive entries of every file below it. Each entry pairs the file's
    stored path with the entry name formed by the chain of folder names from
    the archived folder down, followed by the file's display name. The
    descent is not scoped to an owner. It also has no cycle check, so the
    model carries a depth budget `fuel`: None means the descent did not
    finish within it. */
module Archive {
  import opened Common
  import opened Records
  import opened Paths
  import Hierarchy

  /** One `archive.file(source, { name })` call. */
  datatype Entry = Entry(source: string, name: string)

  /** `File.find({ parentId })`: the files directly in a folder, any owner. */
  function FilesIn(s: Store, id: Id): (r: seq<File>)
    ensures forall f :: f in r <==> f in s.files && f.parentId == Some(id)
  {
    Filter(s.files, (f: File) => f.parentId == Some(id))
  }

  /** `Folder.find({ parentId })`: the folders directly in a folder, any owner. */
  function FoldersIn(s: Store, id: Id): (r: seq<Folder>)
    ensures forall f :: f in r <==> f in s.folders && f.parentId == Some(id)
  {
    Filter(s.folders, (f: Folder) => f.parentId == Some(id))
  }

  /** The entries for a folder's own files, under the folder's path `dir`. */
  function FileEntries(files: seq<File>, dir: string): (r: seq<Entry>)
    ensures |r| == |files|
    ensures forall i :: 0 <= i < |files| ==> r[i] == Entry(files[i].path, Join(dir, files[i].filename))
  {
    seq(|files|, i requires 0 <= i < |files| => Entry(files[i].path, Join(dir, files[i].filename)))
  }

  /** Every entry copies the bytes of a stored file that sits in some
      folder: root-level files are never archived. */
  ghost predicate FromFolderedFiles(s: Store, es: seq<Entry>) {
    forall e :: e in es ==> e.source in FolderedSources(s)
  }

  /** The stored paths of the files that sit in some folder. */
  ghost function FolderedSources(s: Store): set<string> {
    set f | f in s.files && f.parentId.Some? :: f.path
  }

  /** The entries for `folder` archived under `parentPath`: its own files
      first, then each subfolder's entries in store order. */
  function Entries(s: Store, folder: Folder, parentPath: string, fuel: nat): (r: Option<seq<Entry>>)
    ensures r.Some? ==> FromFolderedFiles(s, r.value)
    decreases fuel, 0
  {
    if fuel == 0 then None
    else
      var here := Join(parentPath, folder.name);
      match EntriesOf(s, FoldersIn(s, folder.id), here, fuel - 1)
      case None => None
      case Some(rest) => Some(FileEntries(FilesIn(s, folder.id), here) + rest)
  }

  /** The subfolder loop: the entries of each of `subs`, concatenated. */
  function EntriesOf(s: Store, subs: seq<Folder>, path: string, fuel: nat): (r: Option<seq<Entry>>)
    ensures r.Some? ==> FromFolderedFiles(s, r.value)
    decreases fuel, |subs|
  {
    if |subs| == 0 then Some([])
    else
      match Entries(s, subs[0], path, fuel)
      case None => None
      case Some(first) =>
        match EntriesOf(s, subs[1..], path, fuel)
        case None => None
        case Some(rest) => Some(first + rest)
  }

  /* ------------------------------------------------- reference description */

  /** `chain` descends from `folder` through stored folders, each the parent
      of the next, and `file` sits directly in the last one. */
  ghost predicate Reaches(s: Store, folder: Folder, chain: seq<Folder>, file: File) {
    && |chain| > 0 && chain[0] == folder
    && (forall i :: 1 <= i < |chain| ==> chain[i] in s.folders && chain[i].parentId == Some(chain[i - 1].id))
    && file in s.files && file.parentId == Some(chain[|chain| - 1].id)
  }

  /** The path of the last folder of `chain` when the first is archived under `prefix`. */
  function ChainPath(prefix: string, chain: seq<Folder>): string
    decreases |chain|
  {
    if |chain| == 0 then prefix else ChainPath(Join(prefix, chain[0].name), chain[1..])
  }

  /** The entry that the file at the end of `chain` should have. */
  function EntryFor(prefix: string, chain: seq<Folder>, file: File): Entry {
    Entry(file.path, Join(ChainPath(prefix, chain), file.filename))
  }

  /** The folder names along `chain`. */
  function Names(chain: seq<Folder>): (r: seq<string>)
    ensures |r| == |chain|
    ensures forall i :: 0 <= i < |chain| ==> r[i] == chain[i].name
  {
    if |chain| == 0 then [] else [chain[0].name] + Names(chain[1..])
  }

  /** Every folder of `chain` has a non-empty name. */
  predicate NamedChain(chain: seq<Folder>) {
    forall i :: 0 <= i < |chain| ==> chain[i].name != ""
  }

  /** Descending a chain of named folders below the slash-separated path
      `ps` appends the folders' names to it, one segment each. */
  lemma {:induction false} ChainPathSlashed(ps: seq<string>, chain: seq<Folder>)
    requires NoEmptySegment(ps) && NamedChain(chain)
    ensures ChainPath(Slashed(ps), chain) == Slashed(ps + Names(chain))
    decreases |chain|
  {
    if |chain| == 0 {
      assert ps + Names(chain) == ps;
    } else {
      var head, tail := chain[0].name, chain[1..];
      var ps' := ps + [head];
      NoEmptySegmentSnoc(ps, head);
      NamedChainTail(chain);
      JoinSlashed(ps, head);
      ChainPathSlashed(ps', tail);
      assert ChainPath(Slashed(ps), chain) == ChainPath(Slashed(ps'), tail);
      NamesShift(ps, chain);
    }
  }

  lemma NamedChainTail(chain: seq<Folder>)
    requires NamedChain(chain) && |chain| > 0
    ensures NamedChain(chain[1..])
  {
    forall i | 0 <= i < |chain[1..]| ensures chain[1..][i].name != "" {
      assert chain[1..][i] == chain[i + 1];
    }
  }

  lemma NamesShift(ps: seq<string>, chain: seq<Folder>)
    requires |chain| > 0
    ensures (ps + [chain[0].name]) + Names(chain[1..]) == ps + Names(chain)
  {
    var h, rest := [chain[0].name], Names(chain[1..]);
    assert Names(chain) == h + rest;
    ConcatAssoc(ps, h, rest);
  }

  /** An archive rooted at "" names each file `F/.../sub/filename`: the
      folder names of the chain that reaches it, then its display name,
      with a '/' between each two, provided none of them is empty. */
  lemma EntryNameSlashed(chain: seq<Folder>, file: File)
    requires NamedChain(chain) && file.filename != ""
    ensures EntryFor("", chain, file).name == Slashed(Names(chain) + [file.filename])
  {
    ChainPathSlashed([], chain);
    assert [] + Names(chain) == Names(chain);
    JoinSlashed(Names(chain), file.filename);
  }

  /* -------------------------------------------------------- characterisation */

  /** A file directly in the folder is reached by the one-folder chain. */
  lemma OwnFileReached(s: Store, folder: Folder, prefix: string, file: File)
    requires file in FilesIn(s, folder.id)
    ensures Reaches(s, folder, [folder], file)
    ensures EntryFor(prefix, [folder], file) == Entry(file.path, Join(Join(prefix, folder.name), file.filename))
  {
    assert ChainPath(prefix, [folder]) == ChainPath(Join(prefix, folder.name), []);
  }

  /** A chain from a subfolder extends to a chain from its parent, with the
      parent's name prepended to the path. */
  lemma ExtendChain(s: Store, folder: Folder, prefix: string, sub: Folder, chain: seq<Folder>, file: File)
    requires sub in FoldersIn(s, folder.id) && Reaches(s, sub, chain, file)
    ensures Reaches(s, folder, [folder] + chain, file)
    ensures EntryFor(prefix, [folder] + chain, file) == EntryFor(Join(prefix, folder.name), chain, file)
  {
    var chain' := [folder] + chain;
    assert chain'[1..] == chain;
    forall i | 1 <= i < |chain'| ensures chain'[i] in s.folders && chain'[i].parentId == Some(chain'[i - 1].id) {
      assert chain'[i] == chain[i - 1];
    }
  }

  /** Every entry produced is the entry of a file reachable from the folder,
      named by the chain that reaches it. */
  lemma {:induction false} EntriesSound(s: Store, folder: Folder, prefix: string, fuel: nat)
    requires Entries(s, folder, prefix, fuel).Some?
    ensures forall e :: e in Entries(s, folder, prefix, fuel).value ==>
      exists chain, file :: Reaches(s, folder, chain, file) && e == EntryFor(prefix, chain, file)
    decreases fuel, 0
  {
    var here := Join(prefix, folder.name);
    var files := FilesIn(s, folder.id);
    var own := FileEntries(files, here);
    var subs := FoldersIn(s, folder.id);
    var rest := EntriesOf(s, subs, here, fuel - 1).value;
    assert Entries(s, folder, prefix, fuel).value == own + rest;
    EntriesOfSound(s, subs, here, fuel - 1);
    forall e | e in own + rest
      ensures exists chain, file :: Reaches(s, folder, chain, file) && e == EntryFor(prefix, chain, file)
    {
      if e in own {
        var i :| 0 <= i < |own| && own[i] == e;
        OwnFileReached(s, folder, prefix, files[i]);
      } else {
        var sub, chain, file :| sub in subs && Reaches(s, sub, chain, file) && e == EntryFor(here, chain, file);
        ExtendChain(s, folder, prefix, sub, chain, file);
      }
    }
  }

  lemma {:induction false} EntriesOfSound(s: Store, subs: seq<Folder>, path: string, fuel: nat)
    requires EntriesOf(s, subs, path, fuel).Some?
    ensures forall e :: e in EntriesOf(s, subs, path, fuel).value ==>
      exists sub, chain, file :: sub in subs && Reaches(s, sub, chain, file) && e == EntryFor(path, chain, file)
    decreases fuel, |subs|
  {
    if |subs| > 0 {
      var first := Entries(s, subs[0], path, fuel).value;
      EntriesSound(s, subs[0], path, fuel);
      EntriesOfSound(s, subs[1..], path, fuel);
      forall e | e in EntriesOf(s, subs, path, fuel).value
        ensures exists sub, chain, file :: sub in subs && Reaches(s, sub, chain, file) && e == EntryFor(path, chain, file)
      {
        if e in first {
          var chain, file :| Reaches(s, subs[0], chain, file) && e == EntryFor(path, chain, file);
          assert subs[0] in subs;
        } else {
          var sub, chain, file :| sub in subs[1..] && Reaches(s, sub, chain, file) && e == EntryFor(path, chain, file);
          assert sub in subs;
        }
      }
    }
  }

  /** A subfolder's own entries all appear in the subfolder loop's output. */
  lemma {:induction false} EntriesOfContains(s: Store, subs: seq<Folder>, path: string, fuel: nat, k: nat)
    requires EntriesOf(s, subs, path, fuel).Some? && k < |subs|
    ensures Entries(s, subs[k], path, fuel).Some?
    ensures forall e :: e in Entries(s, subs[k], path, fuel).value ==> e in EntriesOf(s, subs, path, fuel).value
    decreases |subs|
  {
    if k > 0 {
      EntriesOfContains(s, subs[1..], path, fuel, k - 1);
    }
  }

  /** Every file reachable from the folder has its entry in the archive. */
  lemma {:induction false} EntriesComplete(s: Store, folder: Folder, prefix: string, fuel: nat, chain: seq<Folder>, file: File)
    requires Entries(s, folder, prefix, fuel).Some?
    requires Reaches(s, folder, chain, file)
    ensures EntryFor(prefix, chain, file) in Entries(s, folder, prefix, fuel).value
    decreases |chain|
  {
    var here := Join(prefix, folder.name);
    var files := FilesIn(s, folder.id);
    var own := FileEntries(files, here);
    var subs := FoldersIn(s, folder.id);
    var rest := EntriesOf(s, subs, here, fuel - 1).value;
    assert Entries(s, folder, prefix, fuel).value == own + rest;
    if |chain| == 1 {
      assert chain == [folder];
      OwnFileReached(s, folder, prefix, file);
      var i :| 0 <= i < |files| && files[i] == file;
      assert own[i] == EntryFor(prefix, chain, file);
    } else {
      var tail := chain[1..];
      DropChainHead(s, folder, prefix, chain, file);
      var k :| 0 <= k < |subs| && subs[k] == chain[1];
      EntriesOfContains(s, subs, here, fuel - 1, k);
      EntriesComplete(s, chain[1], here, fuel - 1, tail, file);
    }
  }

  /** The converse of `ExtendChain`: a chain longer than one folder continues
      from a subfolder. */
  lemma DropChainHead(s: Store, folder: Folder, prefix: string, chain: seq<Folder>, file: File)
    requires Reaches(s, folder, chain, file) && |chain| > 1
    ensures chain[1] in FoldersIn(s, folder.id)
    ensures Reaches(s, chain[1], chain[1..], file)
    ensures EntryFor(prefix, chain, file) == EntryFor(Join(prefix, folder.name), chain[1..], file)
  {
    var tail := chain[1..];
    forall i | 1 <= i < |tail| ensures tail[i] in s.folders && tail[i].parentId == Some(tail[i - 1].id) {
      assert tail[i] == chain[i + 1];
    }
  }

  /** Every folder and file of the store has a non-empty name. */
  ghost predicate NamedStore(s: Store) {
    && (forall f :: f in s.folders ==> f.name != "")
    && (forall f :: f in s.files ==> f.filename != "")
  }

  /** The archive of a named folder, when every stored name is non-empty,
      names each entry `F/.../sub/filename`: the folder names from the
      archived folder down to the file's folder, then the file's display
      name. */
  lemma EntryNamesSlashed(s: Store, folder: Folder, fuel: nat)
    requires NamedStore(s) && folder.name != ""
    requires Entries(s, folder, "", fuel).Some?
    ensures forall e :: e in Entries(s, folder, "", fuel).value ==>
      exists chain, file :: Reaches(s, folder, chain, file) && e == Entry(file.path, Slashed(Names(chain) + [file.filename]))
  {
    EntriesSound(s, folder, "", fuel);
    forall e | e in Entries(s, folder, "", fuel).value
      ensures exists chain, file :: Reaches(s, folder, chain, file) && e == Entry(file.path, Slashed(Names(chain) + [file.filename]))
    {
      var chain: seq<Folder>, file: File :| Reaches(s, folder, chain, file) && e == EntryFor("", chain, file);
      assert NamedChain(chain) by {
        forall i | 0 <= i < |chain| ensures chain[i].name != "" {
          if i > 0 { assert chain[i] in s.folders; }
        }
      }
      EntryNameSlashed(chain, file);
    }
  }

  /** A folder with no file anywhere below it contributes no entry. */
  lemma EmptySubtreeContributesNothing(s: Store, folder: Folder, prefix: string, fuel: nat)
    requires Entries(s, folder, prefix, fuel).Some?
    requires forall chain, file :: !Reaches(s, folder, chain, file)
    ensures Entries(s, folder, prefix, fuel).value == []
  {
    var es := Entries(s, folder, prefix, fuel).value;
    assert |es| > 0 ==> es[0] in es;
    EntriesSound(s, folder, prefix, fuel);
  }

  /** A folder's own files come first, in store order, before anything from
      its subfolders. */
  lemma OwnFilesFirst(s: Store, folder: Folder, prefix: string, fuel: nat)
    requires Entries(s, folder, prefix, fuel).Some?
    ensures var es := Entries(s, folder, prefix, fuel).value; var files := FilesIn(s, folder.id);
      |files| <= |es| &&
      forall i :: 0 <= i < |files| ==> es[i] == Entry(files[i].path, Join(Join(prefix, folder.name), files[i].filename))
  {
  }

  /** The own-files loop gives each file directly in the folder the entry
      the reference description assigns it through the one-folder chain. */
  lemma FileEntriesOwnFiles(s: Store, folder: Folder, prefix: string)
    ensures var files := FilesIn(s, folder.id); var es := FileEntries(files, Join(prefix, folder.name));
      |es| == |files| &&
      forall i :: 0 <= i < |files| ==> Reaches(s, folder, [folder], files[i]) && es[i] == EntryFor(prefix, [folder], files[i])
  {
    var files := FilesIn(s, folder.id);
    forall i | 0 <= i < |files|
      ensures Reaches(s, folder, [folder], files[i])
      ensures FileEntries(files, Join(prefix, folder.name))[i] == EntryFor(prefix, [folder], files[i])
    {
      OwnFileReached(s, folder, prefix, files[i]);
    }
  }

  /* ------------------------------------------------------------ termination */

  /** A larger budget never changes a finished descent. */
  lemma {:induction false} EntriesFuelMonotone(s: Store, folder: Folder, prefix: string, fuel: nat, more: nat)
    requires Entries(s, folder, prefix, fuel).Some? && fuel <= more
    ensures Entries(s, folder, prefix, more) == Entries(s, folder, prefix, fuel)
    decreases fuel, 0
  {
    EntriesOfFuelMonotone(s, FoldersIn(s, folder.id), Join(prefix, folder.name), fuel - 1, more - 1);
  }

  lemma {:induction false} EntriesOfFuelMonotone(s: Store, subs: seq<Folder>, path: string, fuel: nat, more: nat)
    requires EntriesOf(s, subs, path, fuel).Some? && fuel <= more
    ensures EntriesOf(s, subs, path, more) == EntriesOf(s, subs, path, fuel)
    decreases fuel, |subs|
  {
    if |subs| > 0 {
      EntriesFuelMonotone(s, subs[0], path, fuel, more);
      EntriesOfFuelMonotone(s, subs[1..], path, fuel, more);
    }
  }

  /** `rank` witnesses that the parent links have no cycle: a stored folder
      ranks strictly below its stored parent. */
  ghost predicate Ranked(s: Store, rank: Id -> nat) {
    forall c, p :: c in s.folders && p in s.folders && c.parentId == Some(p.id) ==> rank(c.id) < rank(p.id)
  }

  /** On an acyclic store the descent finishes once the budget exceeds the
      archived folder's rank. */
  lemma {:induction false} EntriesTerminate(s: Store, rank: Id -> nat, folder: Folder, prefix: string, fuel: nat)
    requires Ranked(s, rank) && folder in s.folders && rank(folder.id) < fuel
    ensures Entries(s, folder, prefix, fuel).Some?
    decreases fuel, 0
  {
    var subs := FoldersIn(s, folder.id);
    assert forall sub :: sub in subs ==> sub in s.folders && rank(sub.id) < fuel - 1;
    EntriesOfTerminate(s, rank, subs, Join(prefix, folder.name), fuel - 1);
  }

  lemma {:induction false} EntriesOfTerminate(s: Store, rank: Id -> nat, subs: seq<Folder>, path: string, fuel: nat)
    requires Ranked(s, rank)
    requires forall sub :: sub in subs ==> sub in s.folders && rank(sub.id) < fuel
    ensures EntriesOf(s, subs, path, fuel).Some?
    decreases fuel, |subs|
  {
    if |subs| > 0 {
      assert subs[0] in subs;
      EntriesTerminate(s, rank, subs[0], path, fuel);
      assert forall sub :: sub in subs[1..] ==> sub in subs;
      EntriesOfTerminate(s, rank, subs[1..], path, fuel);
    }
  }

  /** A folder that is its own parent makes the descent run forever: no
      budget is enough. */
  lemma {:induction false} SelfParentNeverFinishes(s: Store, folder: Folder, prefix: string, fuel: nat)
    requires folder in s.folders && folder.parentId == Some(folder.id)
    ensures Entries(s, folder, prefix, fuel).None?
    decreases fuel
  {
    if fuel > 0 {
      var subs := FoldersIn(s, folder.id);
      var here := Join(prefix, folder.name);
      var k :| 0 <= k < |subs| && subs[k] == folder;
      SelfParentNeverFinishes(s, folder, here, fuel - 1);
      EntriesOfStops(s, subs, here, fuel - 1, k);
    }
  }

  lemma {:induction false} EntriesOfStops(s: Store, subs: seq<Folder>, path: string, fuel: nat, k: nat)
    requires k < |subs| && Entries(s, subs[k], path, fuel).None?
    ensures EntriesOf(s, subs, path, fuel).None?
    decreases |subs|
  {
    if k > 0 {
      EntriesOfStops(s, subs[1..], path, fuel, k - 1);
    }
  }

  /** Moving a folder into itself, which the move route accepts, leaves a
      folder whose archive download never finishes. */
  lemma MoveIntoItselfBreaksArchive(s: Store, folder: Folder, fuel: nat)
    requires folder in s.folders
    ensures var s' := Hierarchy.Move(s, folder.id, "folder", Some(folder.id)).value;
      Entries(s', folder.(parentId := Some(folder.id)), "", fuel).None?
  {
    Hierarchy.MoveIntoItselfAccepted(s, folder);
    var s' := Hierarchy.Move(s, folder.id, "folder", Some(folder.id)).value;
    SelfParentNeverFinishes(s', folder.(parentId := Some(folder.id)), "", fuel);
  }

  /* ------------------------------------------------------- one entry per file */

  /** The files the descent visits, in the order their entries are added. */
  ghost function Visited(s: Store, folder: Folder, fuel: nat): seq<File>
    decreases fuel, 0
  {
    if fuel == 0 then [] else FilesIn(s, folder.id) + VisitedOf(s, FoldersIn(s, folder.id), fuel - 1)
  }

  ghost function VisitedOf(s: Store, subs: seq<Folder>, fuel: nat): seq<File>
    decreases fuel, |subs|
  {
    if |subs| == 0 then [] else Visited(s, subs[0], fuel) + VisitedOf(s, subs[1..], fuel)
  }

  /** `e` is the entry of `f`, named by a chain that reaches `f` from `folder`. */
  ghost predicate EntryOfReached(s: Store, folder: Folder, prefix: string, e: Entry, f: File) {
    exists chain :: Reaches(s, folder, chain, f) && e == EntryFor(prefix, chain, f)
  }

  /** `e` is the entry of `f`, reached from one of `subs`. */
  ghost predicate EntryOfReachedFromOne(s: Store, subs: seq<Folder>, path: string, e: Entry, f: File) {
    exists sub :: sub in subs && EntryOfReached(s, sub, path, e, f)
  }

  /** Entry i belongs to file i. */
  ghost predicate Follows(s: Store, folder: Folder, prefix: string, es: seq<Entry>, fs: seq<File>) {
    |es| == |fs| && forall i :: 0 <= i < |es| ==> EntryOfReached(s, folder, prefix, es[i], fs[i])
  }

  ghost predicate FollowsOne(s: Store, subs: seq<Folder>, path: string, es: seq<Entry>, fs: seq<File>) {
    |es| == |fs| && forall i :: 0 <= i < |es| ==> EntryOfReachedFromOne(s, subs, path, es[i], fs[i])
  }

  /** The i-th entry is the entry of the i-th visited file, named by a chain
      that reaches it. */
  lemma {:induction false} EntriesFollowVisited(s: Store, folder: Folder, prefix: string, fuel: nat)
    requires Entries(s, folder, prefix, fuel).Some?
    ensures Follows(s, folder, prefix, Entries(s, folder, prefix, fuel).value, Visited(s, folder, fuel))
    decreases fuel, 0
  {
    var here := Join(prefix, folder.name);
    var files := FilesIn(s, folder.id);
    var subs := FoldersIn(s, folder.id);
    var rest := EntriesOf(s, subs, here, fuel - 1).value;
    var frest := VisitedOf(s, subs, fuel - 1);
    assert Entries(s, folder, prefix, fuel).value == FileEntries(files, here) + rest;
    assert Visited(s, folder, fuel) == files + frest;
    EntriesOfFollowVisited(s, subs, here, fuel - 1);
    FollowsConcat(s, folder, prefix, files, subs, rest, frest);
  }

  /** A folder's own entries followed by its subfolders' keep each entry
      with its file. */
  lemma FollowsConcat(s: Store, folder: Folder, prefix: string, files: seq<File>, subs: seq<Folder>,
                      rest: seq<Entry>, frest: seq<File>)
    requires forall f :: f in files ==> f in FilesIn(s, folder.id)
    requires forall sub :: sub in subs ==> sub in FoldersIn(s, folder.id)
    requires FollowsOne(s, subs, Join(prefix, folder.name), rest, frest)
    ensures Follows(s, folder, prefix, FileEntries(files, Join(prefix, folder.name)) + rest, files + frest)
  {
    var here := Join(prefix, folder.name);
    var own := FileEntries(files, here);
    var es, fs := own + rest, files + frest;
    forall i | 0 <= i < |es| ensures EntryOfReached(s, folder, prefix, es[i], fs[i]) {
      if i < |files| {
        var f := files[i];
        assert f in files;
        OwnFileReached(s, folder, prefix, f);
        assert es[i] == own[i] && fs[i] == f;
        assert Reaches(s, folder, [folder], f) && es[i] == EntryFor(prefix, [folder], f);
      } else {
        var j := i - |files|;
        assert es[i] == rest[j] && fs[i] == frest[j];
        assert EntryOfReachedFromOne(s, subs, here, rest[j], frest[j]);
        var sub :| sub in subs && EntryOfReached(s, sub, here, es[i], fs[i]);
        var chain :| Reaches(s, sub, chain, fs[i]) && es[i] == EntryFor(here, chain, fs[i]);
        ExtendChain(s, folder, prefix, sub, chain, fs[i]);
        assert Reaches(s, folder, [folder] + chain, fs[i]) && es[i] == EntryFor(prefix, [folder] + chain, fs[i]);
      }
    }
  }

  lemma {:induction false} EntriesOfFollowVisited(s: Store, subs: seq<Folder>, path: string, fuel: nat)
    requires EntriesOf(s, subs, path, fuel).Some?
    ensures FollowsOne(s, subs, path, EntriesOf(s, subs, path, fuel).value, VisitedOf(s, subs, fuel))
    decreases fuel, |subs|
  {
    if |subs| > 0 {
      var first := Entries(s, subs[0], path, fuel).value;
      var rest := EntriesOf(s, subs[1..], path, fuel).value;
      var ffirst := Visited(s, subs[0], fuel);
      var frest := VisitedOf(s, subs[1..], fuel);
      assert EntriesOf(s, subs, path, fuel).value == first + rest;
      assert VisitedOf(s, subs, fuel) == ffirst + frest;
      EntriesFollowVisited(s, subs[0], path, fuel);
      EntriesOfFollowVisited(s, subs[1..], path, fuel);
      FollowsOneConcat(s, subs, path, first, rest, ffirst, frest);
    }
  }

  /** The first subfolder's entries followed by the others' keep each entry
      with its file. */
  lemma FollowsOneConcat(s: Store, subs: seq<Folder>, path: string,
                         first: seq<Entry>, rest: seq<Entry>, ffirst: seq<File>, frest: seq<File>)
    requires |subs| > 0
    requires Follows(s, subs[0], path, first, ffirst) && FollowsOne(s, subs[1..], path, rest, frest)
    ensures FollowsOne(s, subs, path, first + rest, ffirst + frest)
  {
    var es, fs := first + rest, ffirst + frest;
    forall i | 0 <= i < |es| ensures EntryOfReachedFromOne(s, subs, path, es[i], fs[i]) {
      if i < |first| {
        assert es[i] == first[i] && fs[i] == ffirst[i];
        assert EntryOfReached(s, subs[0], path, first[i], ffirst[i]);
        assert subs[0] in subs;
      } else {
        var j := i - |first|;
        assert es[i] == rest[j] && fs[i] == frest[j];
        assert EntryOfReachedFromOne(s, subs[1..], path, rest[j], frest[j]);
        var sub :| sub in subs[1..] && EntryOfReached(s, sub, path, es[i], fs[i]);
        assert sub in subs;
      }
    }
  }

  /** Every visited file is reachable from the folder. */
  lemma {:induction false} VisitedSound(s: Store, folder: Folder, fuel: nat)
    ensures forall f :: f in Visited(s, folder, fuel) ==> exists chain :: Reaches(s, folder, chain, f)
    decreases fuel, 0
  {
    if fuel > 0 {
      var files := FilesIn(s, folder.id);
      var subs := FoldersIn(s, folder.id);
      VisitedOfSound(s, subs, fuel - 1);
      forall f | f in Visited(s, folder, fuel) ensures exists chain :: Reaches(s, folder, chain, f) {
        if f in files {
          OwnFileReached(s, folder, "", f);
        } else {
          assert f in VisitedOf(s, subs, fuel - 1);
          var sub, chain :| sub in subs && Reaches(s, sub, chain, f);
          ExtendChain(s, folder, "", sub, chain, f);
        }
      }
    }
  }

  lemma {:induction false} VisitedOfSound(s: Store, subs: seq<Folder>, fuel: nat)
    ensures forall f :: f in VisitedOf(s, subs, fuel) ==> exists sub, chain :: sub in subs && Reaches(s, sub, chain, f)
    decreases fuel, |subs|
  {
    if |subs| > 0 {
      VisitedSound(s, subs[0], fuel);
      VisitedOfSound(s, subs[1..], fuel);
      forall f | f in VisitedOf(s, subs, fuel) ensures exists sub, chain :: sub in subs && Reaches(s, sub, chain, f) {
        if f in Visited(s, subs[0], fuel) {
          var chain :| Reaches(s, subs[0], chain, f);
          assert subs[0] in subs;
        } else {
          assert f in VisitedOf(s, subs[1..], fuel);
          var sub, chain :| sub in subs[1..] && Reaches(s, sub, chain, f);
          assert sub in subs;
        }
      }
    }
  }

  /** Every reachable file is visited by a descent that finishes. */
  lemma {:induction false} VisitedComplete(s: Store, folder: Folder, prefix: string, fuel: nat, chain: seq<Folder>, file: File)
    requires Entries(s, folder, prefix, fuel).Some?
    requires Reaches(s, folder, chain, file)
    ensures file in Visited(s, folder, fuel)
    decreases |chain|
  {
    var here := Join(prefix, folder.name);
    var subs := FoldersIn(s, folder.id);
    if |chain| == 1 {
      assert file in FilesIn(s, folder.id);
    } else {
      DropChainHead(s, folder, prefix, chain, file);
      var k :| 0 <= k < |subs| && subs[k] == chain[1];
      EntriesOfContains(s, subs, here, fuel - 1, k);
      VisitedComplete(s, chain[1], here, fuel - 1, chain[1..], file);
      VisitedOfContains(s, subs, fuel - 1, k);
    }
  }

  lemma {:induction false} VisitedOfContains(s: Store, subs: seq<Folder>, fuel: nat, k: nat)
    requires k < |subs|
    ensures forall f :: f in Visited(s, subs[k], fuel) ==> f in VisitedOf(s, subs, fuel)
    decreases |subs|
  {
    if k > 0 {
      VisitedOfContains(s, subs[1..], fuel, k - 1);
    }
  }

  /** `chain` runs down from its first folder through stored folders, each
      the parent of the next. */
  ghost predicate Descends(s: Store, chain: seq<Folder>) {
    && |chain| > 0 && chain[0] in s.folders
    && forall i :: 1 <= i < |chain| ==> chain[i] in s.folders && chain[i].parentId == Some(chain[i - 1].id)
  }

  /** Ranks fall strictly along a descending chain. */
  lemma {:induction false} RankFalls(s: Store, rank: Id -> nat, chain: seq<Folder>, j: nat)
    requires Ranked(s, rank) && Descends(s, chain) && 0 < j < |chain|
    ensures rank(chain[j].id) < rank(chain[0].id)
    decreases j
  {
    if j > 1 {
      RankFalls(s, rank, chain, j - 1);
    }
  }

  /** On an acyclic store with unique ids, two descending chains with the
      same ends are the same chain. */
  lemma {:induction false} DescentUnique(s: Store, rank: Id -> nat, c1: seq<Folder>, c2: seq<Folder>)
    requires UniqueIds(s) && Ranked(s, rank)
    requires Descends(s, c1) && Descends(s, c2)
    requires c1[0] == c2[0] && c1[|c1| - 1] == c2[|c2| - 1]
    ensures c1 == c2
    decreases |c1| + |c2|
  {
    var n, m := |c1|, |c2|;
    if n > 1 {
      RankFalls(s, rank, c1, n - 1);
    }
    if m > 1 {
      RankFalls(s, rank, c2, m - 1);
    }
    if n > 1 && m > 1 {
      var p1, p2 := c1[n - 2], c2[m - 2];
      FolderOfId(s, p1, p2);
      var d1, d2 := c1[..n - 1], c2[..m - 1];
      DescendsPrefix(s, c1);
      DescendsPrefix(s, c2);
      DescentUnique(s, rank, d1, d2);
      assert c1 == d1 + [c1[n - 1]] && c2 == d2 + [c2[m - 1]];
    }
  }

  lemma DescendsPrefix(s: Store, chain: seq<Folder>)
    requires Descends(s, chain) && |chain| > 1
    ensures Descends(s, chain[..|chain| - 1])
  {
    var d := chain[..|chain| - 1];
    forall i | 1 <= i < |d| ensures d[i] in s.folders && d[i].parentId == Some(d[i - 1].id) {
      assert d[i] == chain[i] && d[i - 1] == chain[i - 1];
    }
  }

  /** On an acyclic store with unique ids, a file is reached from a stored
      folder by one chain only. */
  lemma ReachUnique(s: Store, rank: Id -> nat, folder: Folder, c1: seq<Folder>, c2: seq<Folder>, file: File)
    requires UniqueIds(s) && Ranked(s, rank) && folder in s.folders
    requires Reaches(s, folder, c1, file) && Reaches(s, folder, c2, file)
    ensures c1 == c2
  {
    assert Descends(s, c1) && Descends(s, c2);
    FolderOfId(s, c1[|c1| - 1], c2[|c2| - 1]);
    DescentUnique(s, rank, c1, c2);
  }

  /** On an acyclic store with unique ids, the descent visits no file twice. */
  lemma {:induction false} VisitedDistinct(s: Store, rank: Id -> nat, folder: Folder, fuel: nat)
    requires UniqueIds(s) && Ranked(s, rank) && folder in s.folders
    ensures Distinct(Visited(s, folder, fuel))
    decreases fuel, 0
  {
    if fuel > 0 {
      var files := FilesIn(s, folder.id);
      var subs := FoldersIn(s, folder.id);
      var rest := VisitedOf(s, subs, fuel - 1);
      StoredOnce(s);
      FilterDistinct(s.files, (f: File) => f.parentId == Some(folder.id));
      FilterDistinct(s.folders, (f: Folder) => f.parentId == Some(folder.id));
      VisitedOfDistinct(s, rank, folder, subs, fuel - 1);
      VisitedOfSound(s, subs, fuel - 1);
      forall f | f in files ensures f !in rest {
        if f in rest {
          var sub, chain :| sub in subs && Reaches(s, sub, chain, f);
          ExtendChain(s, folder, "", sub, chain, f);
          OwnFileReached(s, folder, "", f);
          ReachUnique(s, rank, folder, [folder], [folder] + chain, f);
        }
      }
      DistinctConcat(files, rest);
    }
  }

  lemma {:induction false} VisitedOfDistinct(s: Store, rank: Id -> nat, folder: Folder, subs: seq<Folder>, fuel: nat)
    requires UniqueIds(s) && Ranked(s, rank) && folder in s.folders
    requires Distinct(subs) && forall sub :: sub in subs ==> sub in FoldersIn(s, folder.id)
    ensures Distinct(VisitedOf(s, subs, fuel))
    decreases fuel, |subs|
  {
    if |subs| > 0 {
      var first := Visited(s, subs[0], fuel);
      var rest := VisitedOf(s, subs[1..], fuel);
      assert subs[0] in subs;
      VisitedDistinct(s, rank, subs[0], fuel);
      assert forall sub :: sub in subs[1..] ==> sub in subs;
      VisitedOfDistinct(s, rank, folder, subs[1..], fuel);
      VisitedSound(s, subs[0], fuel);
      VisitedOfSound(s, subs[1..], fuel);
      forall f | f in first ensures f !in rest {
        if f in rest {
          var c0 :| Reaches(s, subs[0], c0, f);
          var sub, ck :| sub in subs[1..] && Reaches(s, sub, ck, f);
          var k :| 1 <= k < |subs| && subs[k] == sub;
          ExtendChain(s, folder, "", subs[0], c0, f);
          ExtendChain(s, folder, "", sub, ck, f);
          ReachUnique(s, rank, folder, [folder] + c0, [folder] + ck, f);
        }
      }
      DistinctConcat(first, rest);
    }
  }

  /** On an acyclic store with unique ids, the archive holds one entry per
      file reachable from the folder: entry i belongs to the i-th visited
      file and is named by a chain of folders that reaches it, no file is
      visited twice, and the visited files are exactly the reachable ones. */
  lemma EntriesOnePerFile(s: Store, rank: Id -> nat, folder: Folder, prefix: string, fuel: nat)
    requires UniqueIds(s) && Ranked(s, rank) && folder in s.folders
    requires Entries(s, folder, prefix, fuel).Some?
    ensures Follows(s, folder, prefix, Entries(s, folder, prefix, fuel).value, Visited(s, folder, fuel))
    ensures Distinct(Visited(s, folder, fuel))
    ensures forall f :: f in Visited(s, folder, fuel) <==> exists chain :: Reaches(s, folder, chain, f)
  {
    EntriesFollowVisited(s, folder, prefix, fuel);
    VisitedDistinct(s, rank, folder, fuel);
    VisitedSound(s, folder, fuel);
    forall f, chain | Reaches(s, folder, chain, f) ensures f in Visited(s, folder, fuel) {
      VisitedComplete(s, folder, prefix, fuel, chain, f);
    }
  }
}
