/** The upload route: the file-type filter, the name chosen for the stored
    copy, the size limit and the File record created for the upload. The
    uploads directory is the set of names already in it; bytes are not
    modelled. */
module Upload {
  import opened Common
  import opened Records
  import opened Strings
  import opened Paths

  /** `limits.fileSize`: 100 MiB. */
  const MaxFileSize: nat := 100 * 1024 * 1024

  /** Stored copies go to this directory; a record's `path` is this prefix
      followed by the stored name. */
  const UploadDir: string := "uploads/"

  /** The alternatives of the file-type pattern. */
  const AllowedTypes: seq<string> := ["jpeg", "jpg", "png", "gif", "pdf", "doc", "docx"]

  const FileTypeError: string := "Error: Images, PDFs, and Docs Only!"
  const NoFileMessage: string := "No file selected!"
  const TooLargeMessage: string := "File too large. Maximum size is 100MB."

  /* ------------------------------------------------------------- type check */

  /** The file-type pattern finds a match somewhere in `s`. */
  predicate MatchesAllowedType(s: string) {
    exists w :: w in AllowedTypes && Contains(s, w)
  }

  /** `checkFileType`: the lower-cased extension of the original name and
      the mimetype it is given must both contain one of the allowed words;
      otherwise the filter fails with `FileTypeError`. */
  function CheckFileType(originalname: string, mimetype: string): (r: Option<string>)
    ensures r.None? <==> MatchesAllowedType(Lower(ExtName(originalname))) && MatchesAllowedType(mimetype)
    ensures r.Some? ==> r.value == FileTypeError
  {
    if MatchesAllowedType(Lower(ExtName(originalname))) && MatchesAllowedType(mimetype) then None
    else Some(FileTypeError)
  }

  /** Every allowed word has at least three letters, so an accepted file has
      an extension of a dot and at least three characters, and a mimetype of
      at least three characters. */
  lemma AcceptedHasExtension(originalname: string, mimetype: string)
    requires CheckFileType(originalname, mimetype).None?
    ensures |ExtName(originalname)| >= 4 && ExtName(originalname)[0] == '.'
    ensures |mimetype| >= 3
  {
    var ext := ExtName(originalname);
    var e := Lower(ext);
    var w :| w in AllowedTypes && Contains(e, w);
    var i :| OccursAt(e, w, i);
    assert |w| >= 3 && w[0] != '.';
    assert e[i] == w[0];
    assert ext != "";
    assert e[0] == LowerChar('.') == '.';
    var m :| m in AllowedTypes && Contains(mimetype, m);
    var j :| OccursAt(mimetype, m, j);
    assert |m| >= 3;
  }

  /** The extension check ignores case: "PHOTO.JPG" passes like "photo.jpg". */
  lemma ExtensionCaseIgnored(a: string, b: string, mimetype: string)
    requires Lower(ExtName(a)) == Lower(ExtName(b))
    ensures CheckFileType(a, mimetype) == CheckFileType(b, mimetype)
  {
  }

  /** A PDF with an upper-case extension and the standard mimetype passes. */
  lemma PdfAccepted(name: string, mimetype: string)
    requires name == "Report.PDF" && mimetype == "application/pdf"
    ensures CheckFileType(name, mimetype).None?
  {
    ExtNameOfSplit("Report", "PDF");
    assert name == "Report" + "." + "PDF";
    assert Lower(".PDF") == ".pdf";
    assert OccursAt(".pdf", "pdf", 1);
    assert OccursAt(mimetype, "pdf", 12);
    assert "pdf" in AllowedTypes;
  }

  /** A Word 97 document sent with its registered mimetype
      "application/msword" is refused: the extension passes but none of the
      words occurs in the mimetype. */
  lemma MsWordDocumentRejected(name: string, mimetype: string)
    requires name == "letter.doc" && mimetype == "application/msword"
    ensures CheckFileType(name, mimetype).Some?
  {
    var m := mimetype;
    assert 'j' !in m && 'f' !in m && 'g' !in m && 'x' !in m;
    MissingCharNotContained(m, "png", 2);
    MissingCharNotContained(m, "docx", 3);
    MsWordLacksDoc(m);
    NoAllowedWord(m);
  }

  /** `checkFileType` does not fold the mimetype's case: given "image/JPEG"
      it refuses even "photo.jpg". (The multipart parser lower-cases the
      content type before the filter sees it; the parser is not part of
      this model.) */
  lemma UpperCaseMimetypeRejected(name: string, mimetype: string)
    requires name == "photo.jpg" && mimetype == "image/JPEG"
    ensures CheckFileType(name, mimetype).Some?
  {
    var m := mimetype;
    assert 'j' !in m && 'f' !in m && 'p' !in m && 'd' !in m;
    MissingCharNotContained(m, "png", 0);
    MissingCharNotContained(m, "doc", 0);
    MissingCharNotContained(m, "docx", 0);
    NoAllowedWord(m);
  }

  /** A string without 'j' and 'f' that also lacks "png", "doc" and "docx"
      contains none of the allowed words. */
  lemma NoAllowedWord(m: string)
    requires 'j' !in m && 'f' !in m
    requires !Contains(m, "png") && !Contains(m, "doc") && !Contains(m, "docx")
    ensures !MatchesAllowedType(m)
  {
    MissingCharNotContained(m, "jpeg", 0);
    MissingCharNotContained(m, "jpg", 0);
    MissingCharNotContained(m, "gif", 2);
    MissingCharNotContained(m, "pdf", 2);
  }

  /** The only 'd' of "application/msword" is its last character. */
  lemma MsWordLacksDoc(m: string)
    requires m == "application/msword"
    ensures !Contains(m, "doc")
  {
    assert |m| == 18 && m[..17] == "application/mswor";
    assert 'd' !in m[..17];
    forall i | 0 <= i <= |m| - 3 ensures m[i] != 'd' {
      assert m[i] == m[..17][i];
    }
    LateStartNotContained(m, "doc");
  }

  /* ---------------------------------------------------------------- naming */

  /** The k-th alternative name: base name, '-', k in decimal, extension.
      It is longer than the original, so it never repeats it. */
  function Candidate(name: string, k: nat): (r: string)
    ensures |r| == |name| + 1 + |Decimal(k)|
    ensures r != name
  {
    BaseName(name) + "-" + Decimal(k) + ExtName(name)
  }

  /** Different counters give different alternative names. */
  lemma CandidateInjective(name: string, a: nat, b: nat)
    ensures Candidate(name, a) == Candidate(name, b) ==> a == b
  {
    var p := BaseName(name) + "-";
    var e := ExtName(name);
    var x := Candidate(name, a);
    var y := Candidate(name, b);
    assert x == p + Decimal(a) + e;
    assert y == p + Decimal(b) + e;
    assert x[|p|..|x| - |e|] == Decimal(a);
    assert y[|p|..|y| - |e|] == Decimal(b);
    DecimalInjective(a, b);
  }

  /** `k` is the smallest counter whose alternative name is free. */
  ghost predicate SmallestFreeCounter(name: string, taken: set<string>, k: nat) {
    && k >= 1
    && Candidate(name, k) !in taken
    && forall j :: 1 <= j < k ==> Candidate(name, j) in taken
  }

  /** The naming rule: a free original name is kept; otherwise the
      alternative with the smallest free counter is used. */
  ghost predicate IsChosenName(name: string, taken: set<string>, chosen: string) {
    && chosen !in taken
    && (name !in taken ==> chosen == name)
    && (name in taken ==> exists k :: SmallestFreeCounter(name, taken, k) && chosen == Candidate(name, k))
  }

  /** The naming rule picks exactly one name. */
  lemma ChosenNameUnique(name: string, taken: set<string>, a: string, b: string)
    requires IsChosenName(name, taken, a) && IsChosenName(name, taken, b)
    ensures a == b
  {
    if name in taken {
      var i: nat :| SmallestFreeCounter(name, taken, i) && a == Candidate(name, i);
      var j: nat :| SmallestFreeCounter(name, taken, j) && b == Candidate(name, j);
      assert !(i < j) && !(j < i);
    }
  }

  /** The alternatives with counters 1 .. n-1. */
  ghost function Tried(name: string, n: nat): set<string> {
    set j | 1 <= j < n :: Candidate(name, j)
  }

  lemma TriedGrows(name: string, n: nat)
    requires n >= 1
    ensures Tried(name, n + 1) == Tried(name, n) + {Candidate(name, n)}
    ensures Candidate(name, n) !in Tried(name, n)
  {
    forall j | 1 <= j < n ensures Candidate(name, j) != Candidate(name, n) {
      CandidateInjective(name, j, n);
    }
  }

  lemma RemovingMoreShrinks(a: set<string>, b: set<string>, x: string)
    requires x in a && x !in b
    ensures |a - (b + {x})| < |a - b|
  {
    assert a - b == (a - (b + {x})) + {x};
  }

  /** The multer `filename` callback: try the original name, then
      `base-1.ext`, `base-2.ext`, ... until one is not taken. */
  method ChooseFilename(name: string, taken: set<string>) returns (chosen: string)
    ensures IsChosenName(name, taken, chosen)
  {
    chosen := name;
    var counter: nat := 1;
    while chosen in taken
      invariant counter >= 1
      invariant counter == 1 ==> chosen == name
      invariant counter > 1 ==> name in taken && chosen == Candidate(name, counter - 1)
      invariant forall j :: 1 <= j < counter - 1 ==> Candidate(name, j) in taken
      decreases |taken - Tried(name, counter - 1)| + (if counter == 1 then 1 else 0)
    {
      if counter > 1 {
        TriedGrows(name, counter - 1);
        RemovingMoreShrinks(taken, Tried(name, counter - 1), chosen);
      } else {
        assert Tried(name, 0) == {} == Tried(name, 1);
      }
      chosen := Candidate(name, counter);
      counter := counter + 1;
    }
    if counter > 1 {
      assert SmallestFreeCounter(name, taken, counter - 1);
    }
  }

  /** `existsSync(join('./uploads/', n))`: besides the stored names, "" and
      "." resolve to the directory itself and ".." to its parent, all of
      which exist; every other name is free exactly when nothing is stored
      under it. */
  function Taken(uploads: set<string>): (r: set<string>)
    ensures uploads <= r && "" in r && "." in r && ".." in r
    ensures forall n :: n !in uploads && n != "" && n != "." && n != ".." ==> n !in r
  {
    uploads + {"", ".", ".."}
  }

  /** The name chosen against the directory is new to it and is never one
      of the names that resolve to a directory, so storing it adds exactly
      one name. */
  lemma ChosenNameIsNew(name: string, uploads: set<string>, chosen: string)
    requires IsChosenName(name, Taken(uploads), chosen)
    ensures chosen !in uploads && chosen != "" && chosen != "." && chosen != ".."
    ensures |uploads + {chosen}| == |uploads| + 1
  {
  }

  /* ---------------------------------------------------------------- handler */

  /** The uploaded part as the multipart parser reports it. */
  datatype Incoming = Incoming(originalname: string, mimetype: string, size: nat)

  /** Status and JSON body of the reply; `msg: None` is a body whose `msg`
      is undefined. */
  datatype Reply = Reply(status: int, msg: Option<string>, file: Option<string>)

  /** A successful upload: `chosen` follows the naming rule, the copy joins
      the directory, and one record owned by `user` is appended at root
      level, dated `now`. */
  ghost predicate StoredAs(s: Store, uploads: set<string>, user: UserId, inc: Incoming, id: Id, now: int,
                           chosen: string, reply: Reply, s': Store, uploads': set<string>) {
    && IsChosenName(inc.originalname, Taken(uploads), chosen)
    && uploads' == uploads + {chosen}
    && reply == Reply(200, Some("File uploaded!"), Some(UploadDir + chosen))
    && s'.folders == s.folders
    && s'.files == s.files + [File(id, user, chosen, UploadDir + chosen, inc.mimetype, inc.size, now, None)]
  }

  /** `POST /api/upload`, after authentication has supplied `user`. The
      store supplies the new record's `id` and the clock `now`. A part
      without a file name (a form sent with no file chosen) is skipped by
      the multipart parser, so it is reported like a missing file. The
      filter runs next and its error is a bare string, so that reply
      carries no message; an oversized upload is removed again; otherwise
      the copy is kept and its record saved. */
  method HandleUpload(s: Store, uploads: set<string>, user: UserId, incoming: Option<Incoming>, id: Id, now: int)
    returns (reply: Reply, s': Store, uploads': set<string>)
    ensures incoming.None? || incoming.value.originalname == "" ==> reply == Reply(400, Some(NoFileMessage), None)
    ensures incoming.Some? && incoming.value.originalname != ""
            && CheckFileType(incoming.value.originalname, incoming.value.mimetype).Some? ==>
      reply == Reply(400, None, None)
    ensures incoming.Some? && incoming.value.originalname != ""
            && CheckFileType(incoming.value.originalname, incoming.value.mimetype).None?
            && incoming.value.size > MaxFileSize ==>
      reply == Reply(400, Some(TooLargeMessage), None)
    ensures reply.status != 200 ==> s' == s && uploads' == uploads
    ensures reply.status == 200 <==>
      incoming.Some? && incoming.value.originalname != ""
      && CheckFileType(incoming.value.originalname, incoming.value.mimetype).None?
      && incoming.value.size <= MaxFileSize
    ensures reply.status == 200 ==>
      exists chosen :: StoredAs(s, uploads, user, incoming.value, id, now, chosen, reply, s', uploads')
  {
    if incoming.None? || incoming.value.originalname == "" {
      return Reply(400, Some(NoFileMessage), None), s, uploads;
    }
    var inc := incoming.value;
    if CheckFileType(inc.originalname, inc.mimetype).Some? {
      return Reply(400, None, None), s, uploads;
    }
    var chosen := ChooseFilename(inc.originalname, Taken(uploads));
    if inc.size > MaxFileSize {
      return Reply(400, Some(TooLargeMessage), None), s, uploads;
    }
    AcceptedHasExtension(inc.originalname, inc.mimetype);
    var draft := FileDraft(Some(user), Some(chosen), Some(UploadDir + chosen), Some(inc.mimetype),
                           Some(inc.size), None, None);
    match SaveFile(draft, id, now) {
      case None =>
        reply, s', uploads' := Reply(500, Some("Server error"), None), s, uploads + {chosen};
      case Some(record) =>
        reply, s', uploads' := Reply(200, Some("File uploaded!"), Some(UploadDir + chosen)),
                               s.(files := s.files + [record]), uploads + {chosen};
        assert StoredAs(s, uploads, user, inc, id, now, chosen, reply, s', uploads');
    }
  }
}
