/** The file drop-zone (`file-upload.ts`): admission of a batch of files
    against the free slots, the size limit and the accepted types; removal;
    and the icon chosen for a file. */
module FileUpload {
  import opened Wrappers
  import Seqs
  import Text

  /** What the widget reads from a browser `File`: name, MIME type, size in bytes. */
  datatype FileInfo = FileInfo(name: string, mime: string, size: int)

  datatype Status = Pending | Uploading | Done | Failed

  /** One admitted file. The source tells entries apart by object identity;
      here every entry carries a distinct `id` instead. */
  datatype Entry = Entry(id: nat, file: FileInfo, progress: int, status: Status)

  /** The `errorMessage` signal; the byte count inside the size message is
      formatted by `formatBytes`, which is not part of this model. */
  datatype ErrorMessage =
    | NoError
    | TooManyFiles(maxFiles: int)
    | TooLarge(fileName: string, maxSize: int)
    | TypeNotAllowed(fileName: string, acceptedTypes: string)

  datatype Uploader = Uploader(
    acceptedTypes: string,
    maxSize: int,
    maxFiles: int,
    files: seq<Entry>,
    error: ErrorMessage,
    nextId: nat,
    isUploading: bool)

  const DefaultAcceptedTypes: string := "image/*,.pdf,.doc,.docx"
  const DefaultMaxSize: int := 5242880
  const DefaultMaxFiles: int := 5

  function Initial(): Uploader
  {
    Uploader(DefaultAcceptedTypes, DefaultMaxSize, DefaultMaxFiles, [], NoError, 0, false)
  }

  // ---------------------------------------------------------------------------
  // Accepted types
  // ---------------------------------------------------------------------------

  /** One accepted entry as the code reads it: trimmed, then lower-cased. */
  function Clean(piece: string): string
  {
    Text.ToLower(Text.Trim(piece))
  }

  /** Every piece cleaned, in order. */
  function CleanAll(pieces: seq<string>): (r: seq<string>)
    ensures |r| == |pieces|
    ensures forall k :: 0 <= k < |r| ==> r[k] == Clean(pieces[k])
  {
    seq(|pieces|, k requires 0 <= k < |pieces| => Clean(pieces[k]))
  }

  /** The accepted list: the comma-separated entries, each trimmed and lower-cased. */
  function AcceptedList(acceptedTypes: string): (r: seq<string>)
    ensures |r| == |Text.Split(acceptedTypes, ',')|
    ensures forall k :: 0 <= k < |r| ==> r[k] == Clean(Text.Split(acceptedTypes, ',')[k])
  {
    CleanAll(Text.Split(acceptedTypes, ','))
  }

  /** `'.' + name.toLowerCase().split('.').pop()`: a dot and the text after the
      last dot of the lower-cased name, or the whole name when it has no dot. */
  function Extension(name: string): (r: string)
    ensures |r| >= 1 && r[0] == '.' && '.' !in r[1..]
  {
    "." + Text.Last(Text.Split(Text.ToLower(name), '.'))
  }

  /** The MIME group wildcard: the lower-cased MIME type up to its first slash, then a slash and a star. */
  function MimeGroup(mime: string): (r: string)
    ensures |r| >= 2 && '/' !in r[..|r| - 2] && r[|r| - 2..] == "/*"
  {
    Text.Split(Text.ToLower(mime), '/')[0] + "/*"
  }

  /** `isFileTypeAllowed`: the extension, the exact MIME type, or the MIME
      group wildcard appears in the accepted list. */
  predicate IsFileTypeAllowed(acceptedTypes: string, f: FileInfo)
  {
    var accepted := AcceptedList(acceptedTypes);
    Extension(f.name) in accepted || Text.ToLower(f.mime) in accepted || MimeGroup(f.mime) in accepted
  }

  /** The type check reads the name and the MIME type only in lower case, so
      two files that differ in case alone get the same verdict. */
  lemma TypeCheckIgnoresCase(acceptedTypes: string, f: FileInfo, g: FileInfo)
    requires Text.ToLower(f.name) == Text.ToLower(g.name) && Text.ToLower(f.mime) == Text.ToLower(g.mime)
    ensures IsFileTypeAllowed(acceptedTypes, f) <==> IsFileTypeAllowed(acceptedTypes, g)
  {
  }

  /** The default setting accepts any image, and PDF and Word files by extension. */
  lemma DefaultAcceptedList()
    ensures AcceptedList(DefaultAcceptedTypes) == DefaultList
  {
    DefaultJoin();
    DefaultPiecesPlain();
    PlainAcceptedList(DefaultList);
  }

  /** The default setting is its four entries joined by commas. */
  lemma DefaultJoin()
    ensures Text.Join(DefaultList, ',') == DefaultAcceptedTypes
  {
  }

  /** The four default entries hold no comma, no surrounding space and no capital. */
  lemma DefaultPiecesPlain()
    ensures forall k :: 0 <= k < |DefaultList| ==> ',' !in DefaultList[k]
    ensures forall k :: 0 <= k < |DefaultList| ==> DefaultList[k] != [] && !Text.IsWhitespace(DefaultList[k][0])
                                                   && !Text.IsWhitespace(Text.Last(DefaultList[k]))
    ensures forall k, c :: 0 <= k < |DefaultList| && 0 <= c < |DefaultList[k]| ==> !Text.IsUpper(DefaultList[k][c])
  {
  }

  /** Entries with no spaces around them and no capitals are kept as written. */
  lemma PlainAcceptedList(pieces: seq<string>)
    requires |pieces| >= 1
    requires forall k :: 0 <= k < |pieces| ==> ',' !in pieces[k]
    requires forall k :: 0 <= k < |pieces| ==> pieces[k] != [] && !Text.IsWhitespace(pieces[k][0])
                                                && !Text.IsWhitespace(Text.Last(pieces[k]))
    requires forall k, c :: 0 <= k < |pieces| && 0 <= c < |pieces[k]| ==> !Text.IsUpper(pieces[k][c])
    ensures AcceptedList(Text.Join(pieces, ',')) == pieces
  {
    Text.SplitJoin(pieces, ',');
    forall k | 0 <= k < |pieces|
      ensures Clean(pieces[k]) == pieces[k]
    {
      Text.TrimKeeps(pieces[k]);
      Text.ToLowerKeeps(pieces[k]);
    }
  }

  /** The last piece of a split is what follows the last separator. */
  lemma {:induction false} JoinLast(pieces: seq<string>, sep: char)
    requires |pieces| >= 2
    ensures Text.Join(pieces, sep) == Text.Join(pieces[..|pieces| - 1], sep) + [sep] + Text.Last(pieces)
    decreases |pieces|
  {
    if |pieces| > 2 {
      var tail := pieces[1..];
      JoinLast(tail, sep);
      assert tail[..|tail| - 1] == pieces[..|pieces| - 1][1..];
    }
  }

  /** The extension is the name's own ending: the lower-cased name ends with the
      text after the dot, right after a dot or at the very start. */
  lemma ExtensionIsSuffix(name: string)
    ensures var low := Text.ToLower(name);
            var tail := Extension(name)[1..];
            |tail| <= |low| && low[|low| - |tail|..] == tail
            && (|tail| == |low| || low[|low| - |tail| - 1] == '.')
  {
    var low := Text.ToLower(name);
    var pieces := Text.Split(low, '.');
    var tail := Text.Last(pieces);
    assert Extension(name)[1..] == tail;
    if |pieces| >= 2 {
      JoinLast(pieces, '.');
      var front := Text.Join(pieces[..|pieces| - 1], '.') + ['.'];
      assert low == front + tail;
      assert low[|low| - |tail|..] == tail;
      assert low[|low| - |tail| - 1] == front[|front| - 1];
    }
  }

  /** A group wildcard in the list admits every MIME type of that group,
      whatever its name. */
  lemma GroupWildcardAdmits(acceptedTypes: string, f: FileInfo, group: string)
    requires group + "/*" in AcceptedList(acceptedTypes)
    requires '/' !in group && Text.StartsWith(Text.ToLower(f.mime), group + "/")
    ensures IsFileTypeAllowed(acceptedTypes, f)
  {
    GroupIsPrefix(Text.ToLower(f.mime), group);
  }

  /** Text that starts with a slash-free group and a slash splits into that group first. */
  lemma GroupIsPrefix(s: string, group: string)
    requires '/' !in group && Text.StartsWith(s, group + "/")
    ensures Text.Split(s, '/')[0] == group
  {
    var n := |group|;
    var pre := s[..n + 1];
    assert pre == group + "/";
    assert s[n] == pre[n] == '/';
    assert s[..n] == pre[..n] == group;
    Text.SplitFirstPiece(s, '/', n);
  }

  // ---------------------------------------------------------------------------
  // Admission
  // ---------------------------------------------------------------------------

  /** `newFiles.slice(0, end)`: a negative end counts from the back. */
  function SliceFront<T>(xs: seq<T>, end: int): (r: seq<T>)
    ensures 0 <= end ==> r == xs[..if end < |xs| then end else |xs|]
    ensures end < 0 ==> r == xs[..if |xs| + end > 0 then |xs| + end else 0]
  {
    var k := if end < 0 then (if |xs| + end > 0 then |xs| + end else 0)
             else (if end < |xs| then end else |xs|);
    xs[..k]
  }

  /** The free slots: `maxFiles` minus the files already held. */
  function FreeSlots(u: Uploader): int
  {
    u.maxFiles - |u.files|
  }

  /** The part of the batch that is examined at all. */
  function Considered(u: Uploader, newFiles: seq<FileInfo>): (r: seq<FileInfo>)
    ensures |newFiles| <= FreeSlots(u) ==> r == newFiles
    ensures 0 <= FreeSlots(u) < |newFiles| ==> r == newFiles[..FreeSlots(u)]
  {
    if |newFiles| > FreeSlots(u) then SliceFront(newFiles, FreeSlots(u)) else newFiles
  }

  /** The message a batch starts from: cleared, or the too-many-files message. */
  function InitialError(u: Uploader, newFiles: seq<FileInfo>): ErrorMessage
  {
    if |newFiles| > FreeSlots(u) then TooManyFiles(u.maxFiles) else NoError
  }

  /** A file is admitted when it is at most `maxSize` bytes and of an accepted type. */
  predicate Admissible(u: Uploader, f: FileInfo)
  {
    f.size <= u.maxSize && IsFileTypeAllowed(u.acceptedTypes, f)
  }

  function Admits(u: Uploader): FileInfo -> bool
  {
    (f: FileInfo) => Admissible(u, f)
  }

  /** The message a rejected file leaves behind: size is checked before type. */
  function Rejection(u: Uploader, f: FileInfo): ErrorMessage
    requires !Admissible(u, f)
  {
    if f.size > u.maxSize then TooLarge(f.name, u.maxSize)
    else TypeNotAllowed(f.name, u.acceptedTypes)
  }

  /** The message after examining `xs` in order, starting from `start`: every
      rejection overwrites the message, admissions leave it alone. */
  function ErrorAfter(u: Uploader, xs: seq<FileInfo>, start: ErrorMessage): ErrorMessage
    decreases |xs|
  {
    if xs == [] then start
    else
      var f := xs[|xs| - 1];
      if Admissible(u, f) then ErrorAfter(u, xs[..|xs| - 1], start) else Rejection(u, f)
  }

  /** When nothing in the batch is rejected, the starting message survives. */
  lemma {:induction false} NoRejectionKeepsStart(u: Uploader, xs: seq<FileInfo>, start: ErrorMessage)
    requires forall k :: 0 <= k < |xs| ==> Admissible(u, xs[k])
    ensures ErrorAfter(u, xs, start) == start
    decreases |xs|
  {
    if xs != [] {
      var front := xs[..|xs| - 1];
      forall k | 0 <= k < |front|
        ensures Admissible(u, front[k])
      {
        assert front[k] == xs[k];
      }
      NoRejectionKeepsStart(u, front, start);
    }
  }

  /** The final message is the one left by the last rejected file of the batch. */
  lemma {:induction false} ErrorIsLastRejection(u: Uploader, xs: seq<FileInfo>, start: ErrorMessage, k: nat)
    requires k < |xs| && !Admissible(u, xs[k])
    requires forall j :: k < j < |xs| ==> Admissible(u, xs[j])
    ensures ErrorAfter(u, xs, start) == Rejection(u, xs[k])
    decreases |xs|
  {
    if k < |xs| - 1 {
      var front := xs[..|xs| - 1];
      forall j | k < j < |front|
        ensures Admissible(u, front[j])
      {
        assert front[j] == xs[j];
      }
      assert front[k] == xs[k];
      ErrorIsLastRejection(u, front, start, k);
    }
  }

  /** Examining one more file: it is kept when admissible, and otherwise its
      rejection becomes the message. */
  lemma BatchStep(u: Uploader, xs: seq<FileInfo>, i: nat, start: ErrorMessage)
    requires i < |xs|
    ensures Seqs.Filter(xs[..i + 1], Admits(u))
            == Seqs.Filter(xs[..i], Admits(u)) + (if Admissible(u, xs[i]) then [xs[i]] else [])
    ensures ErrorAfter(u, xs[..i + 1], start)
            == if Admissible(u, xs[i]) then ErrorAfter(u, xs[..i], start) else Rejection(u, xs[i])
  {
    assert xs[..i + 1] == xs[..i] + [xs[i]];
    Seqs.FilterSnoc(xs[..i], xs[i], Admits(u));
    assert xs[..i + 1][..i] == xs[..i];
  }

  /** Fresh entries for the admitted files, numbered from `start`. Each is
      created pending, and the upload that `handleFiles` starts marks it
      uploading before `handleFiles` returns. */
  function NewEntries(files: seq<FileInfo>, start: nat): (r: seq<Entry>)
    ensures |r| == |files|
    ensures forall k :: 0 <= k < |r| ==> r[k] == Entry(start + k, files[k], 0, Uploading)
  {
    seq(|files|, k requires 0 <= k < |files| => Entry(start + k, files[k], 0, Uploading))
  }

  /** `handleFiles`: clear the message; keep only as many files as there are
      free slots (setting the too-many-files message if some are cut); then
      examine the rest in order, appending those within the size limit and of
      an accepted type after the existing files and, when there is at least
      one, reporting them to listeners and starting their upload: they are
      marked uploading and the widget is flagged as uploading. */
  method HandleFiles(u: Uploader, newFiles: seq<FileInfo>) returns (next: Uploader, selected: Option<seq<FileInfo>>)
    ensures var admitted := Seqs.Filter(Considered(u, newFiles), Admits(u));
            next.files == u.files + NewEntries(admitted, u.nextId)
            && next.nextId == u.nextId + |admitted|
            && (selected == if admitted == [] then None else Some(admitted))
            && next.isUploading == (u.isUploading || admitted != [])
    ensures next.error == ErrorAfter(u, Considered(u, newFiles), InitialError(u, newFiles))
    ensures forall k :: |u.files| <= k < |next.files| ==> Admissible(u, next.files[k].file)
    ensures next.acceptedTypes == u.acceptedTypes && next.maxSize == u.maxSize && next.maxFiles == u.maxFiles
    ensures UniqueIds(u) ==> UniqueIds(next)
    ensures |u.files| <= u.maxFiles ==> |next.files| <= next.maxFiles
  {
    var error := NoError;
    var batch := newFiles;
    var slots := u.maxFiles - |u.files|;
    if |batch| > slots {
      error := TooManyFiles(u.maxFiles);
      batch := SliceFront(batch, slots);
    }
    assert batch == Considered(u, newFiles);
    ghost var start := InitialError(u, newFiles);
    var valid: seq<FileInfo> := [];
    var i := 0;
    while i < |batch|
      invariant 0 <= i <= |batch|
      invariant valid == Seqs.Filter(batch[..i], Admits(u))
      invariant error == ErrorAfter(u, batch[..i], start)
    {
      BatchStep(u, batch, i, start);
      ghost var examined := ErrorAfter(u, batch[..i + 1], start);
      valid, error := Examine(u, batch[i], valid, error);
      assert error == examined;
      i := i + 1;
    }
    assert batch[..i] == batch;
    next := u.(files := u.files + NewEntries(valid, u.nextId), error := error, nextId := u.nextId + |valid|,
               isUploading := u.isUploading || |valid| > 0);
    AppendAdmitted(u, newFiles, valid, error);
    selected := if |valid| > 0 then Some(valid) else None;
  }

  /** One step of `handleFiles`' loop: a file over the size limit sets the
      too-large message, otherwise one of a type not accepted sets the
      type message, and otherwise the file is kept. */
  method Examine(u: Uploader, f: FileInfo, valid: seq<FileInfo>, error: ErrorMessage)
    returns (valid': seq<FileInfo>, error': ErrorMessage)
    ensures Admissible(u, f) ==> valid' == valid + [f] && error' == error
    ensures !Admissible(u, f) ==> valid' == valid && error' == Rejection(u, f)
  {
    valid', error' := valid, error;
    if f.size > u.maxSize {
      error' := TooLarge(f.name, u.maxSize);
    } else if !IsFileTypeAllowed(u.acceptedTypes, f) {
      error' := TypeNotAllowed(f.name, u.acceptedTypes);
    } else {
      valid' := valid + [f];
    }
  }

  /** Appending the admitted files keeps ids unique, adds only admissible
      files, and never exceeds `maxFiles` when it was respected before. */
  lemma AppendAdmitted(u: Uploader, newFiles: seq<FileInfo>, valid: seq<FileInfo>, error: ErrorMessage)
    requires valid == Seqs.Filter(Considered(u, newFiles), Admits(u))
    ensures var next := u.(files := u.files + NewEntries(valid, u.nextId), error := error, nextId := u.nextId + |valid|);
            (forall k :: |u.files| <= k < |next.files| ==> Admissible(u, next.files[k].file))
            && (UniqueIds(u) ==> UniqueIds(next))
            && (|u.files| <= u.maxFiles ==> |next.files| <= next.maxFiles)
  {
    AddKeepsUnique(u, valid, error);
    if |u.files| <= u.maxFiles {
      AdmissionWithinLimit(u, newFiles);
    }
    assert forall k :: 0 <= k < |valid| ==> valid[k] in valid;
  }

  /** The accepted list of the default setting, once split and normalised. */
  const DefaultList: seq<string> := ["image/*", ".pdf", ".doc", ".docx"]

  /** Settings that accept what the default setting accepts. */
  predicate DefaultLimits(u: Uploader)
  {
    AcceptedList(u.acceptedTypes) == DefaultList && u.maxSize == DefaultMaxSize
  }

  /** A freshly created uploader has the default settings. */
  lemma InitialHasDefaultLimits()
    ensures DefaultLimits(Initial())
  {
    DefaultAcceptedList();
  }

  /** With the default settings every image within the size limit is admitted,
      whatever its name. */
  lemma DefaultAdmitsImages(u: Uploader, f: FileInfo)
    requires DefaultLimits(u)
    requires f.size <= DefaultMaxSize && Text.StartsWith(Text.ToLower(f.mime), "image/")
    ensures Admissible(u, f)
  {
    ImageGroupSpelling();
    GroupWildcardAdmits(u.acceptedTypes, f, "image");
  }

  /** The image group, followed by a slash or by the wildcard suffix. */
  lemma ImageGroupSpelling()
    ensures "image" + "/" == "image/" && "image" + "/*" == DefaultList[0] && '/' !in "image"
  {
  }

  /** With the default settings a `.pdf`, `.doc` or `.docx` name within the
      size limit is admitted, whatever MIME type the browser reports. */
  lemma DefaultAdmitsDocuments(u: Uploader, f: FileInfo)
    requires DefaultLimits(u)
    requires f.size <= DefaultMaxSize && Extension(f.name) in [".pdf", ".doc", ".docx"]
    ensures Admissible(u, f)
  {
  }

  /** With the default settings a file whose MIME type is not an image type
      and whose name is not a document name is refused for its type, even
      when small enough. The MIME type must not itself read as one of the
      document entries, which any type holding a slash satisfies
      (`NotDocumentExtension`); an empty MIME type, as browsers report for
      unknown files, is covered. */
  lemma DefaultRefusesOthers(u: Uploader, f: FileInfo)
    requires DefaultLimits(u)
    requires f.size <= DefaultMaxSize
    requires Extension(f.name) !in [".pdf", ".doc", ".docx"]
    requires Text.ToLower(f.mime) !in [".pdf", ".doc", ".docx"]
    requires Text.Split(Text.ToLower(f.mime), '/')[0] != "image"
    ensures !Admissible(u, f)
    ensures Rejection(u, f) == TypeNotAllowed(f.name, u.acceptedTypes)
  {
    NonImageNotListed(f.mime);
  }

  /** A MIME type outside the image group matches no entry of the default list,
      neither exactly nor by its group. */
  lemma NonImageNotListed(mime: string)
    requires Text.ToLower(mime) !in [".pdf", ".doc", ".docx"]
    requires Text.Split(Text.ToLower(mime), '/')[0] != "image"
    ensures Text.ToLower(mime) !in DefaultList && MimeGroup(mime) !in DefaultList
  {
    var low := Text.ToLower(mime);
    LowerNotListed(low);
    GroupNotListed(Text.Split(low, '/')[0]);
  }

  lemma LowerNotListed(low: string)
    requires low !in [".pdf", ".doc", ".docx"] && Text.Split(low, '/')[0] != "image"
    ensures low !in DefaultList
  {
    NotImageWildcard(low);
  }

  /** A type whose group is not `image` is not the image wildcard. */
  lemma NotImageWildcard(low: string)
    requires Text.Split(low, '/')[0] != "image"
    ensures low != DefaultList[0]
  {
    ImageWildcardGroup();
  }

  /** A type holding a slash is none of the default extensions. */
  lemma NotDocumentExtension(low: string)
    requires '/' in low
    ensures low !in [".pdf", ".doc", ".docx"] && low !in DefaultList[1..]
  {
    NoSlash(".pdf");
    NoSlash(".doc");
    NoSlash(".docx");
  }

  /** The default image entry names the image group. */
  lemma ImageWildcardGroup()
    ensures Text.Split("image/*", '/')[0] == "image"
  {
    GroupIsPrefix("image/*", "image");
  }

  lemma GroupNotListed(group: string)
    requires group != "image"
    ensures group + "/*" !in DefaultList
  {
    var g := group + "/*";
    assert g[|g| - 1] == '*';
    assert g[..|g| - 2] == group;
  }

  lemma NoSlash(s: string)
    requires |s| >= 1 && s[0] == '.' && forall k :: 1 <= k < |s| ==> 'a' <= s[k] <= 'z'
    ensures '/' !in s
  {
  }

  /** The extension test ignores case: a name and its lower-cased form have
      the same extension. */
  lemma ExtensionIgnoresCase(name: string)
    ensures Extension(Text.ToLower(name)) == Extension(name)
  {
    assert Text.ToLower(Text.ToLower(name)) == Text.ToLower(name);
  }

  /** Entries numbered from `nextId` upwards are fresh. */
  lemma AddKeepsUnique(u: Uploader, valid: seq<FileInfo>, error: ErrorMessage)
    ensures UniqueIds(u) ==>
              UniqueIds(u.(files := u.files + NewEntries(valid, u.nextId), error := error, nextId := u.nextId + |valid|))
  {
    var added := NewEntries(valid, u.nextId);
    var fs := u.files + added;
    if UniqueIds(u) {
      forall i, j | 0 <= i < j < |fs|
        ensures fs[i].id != fs[j].id
      {
        if j >= |u.files| {
          assert fs[j] == added[j - |u.files|];
          if i < |u.files| {
            assert fs[i] == u.files[i];
          } else {
            assert fs[i] == added[i - |u.files|];
          }
        } else {
          assert fs[i] == u.files[i] && fs[j] == u.files[j];
        }
      }
      forall k | 0 <= k < |fs|
        ensures fs[k].id < u.nextId + |valid|
      {
        if k < |u.files| {
          assert fs[k] == u.files[k];
        } else {
          assert fs[k] == added[k - |u.files|];
        }
      }
    }
  }

  /** When the widget already holds more files than `maxFiles` (the limit was
      lowered afterwards), the free-slot count is negative and `slice` counts
      it from the back: the batch loses that many files from its end, and the
      rest is still examined. */
  lemma OverLimitStillExamines(u: Uploader, newFiles: seq<FileInfo>)
    requires FreeSlots(u) < 0 && |newFiles| + FreeSlots(u) > 0
    ensures Considered(u, newFiles) == newFiles[..|newFiles| + FreeSlots(u)]
    ensures Considered(u, newFiles) != []
  {
  }

  /** A batch never pushes the file count past `maxFiles` when it started within it. */
  lemma AdmissionWithinLimit(u: Uploader, newFiles: seq<FileInfo>)
    requires |u.files| <= u.maxFiles
    ensures |Seqs.Filter(Considered(u, newFiles), Admits(u))| <= u.maxFiles - |u.files|
  {
  }

  /** A file of exactly `maxSize` bytes passes the size check; one byte more fails it. */
  lemma SizeBoundary(u: Uploader, f: FileInfo)
    requires IsFileTypeAllowed(u.acceptedTypes, f)
    ensures f.size == u.maxSize ==> Admissible(u, f)
    ensures f.size == u.maxSize + 1 ==> !Admissible(u, f) && Rejection(u, f) == TooLarge(f.name, u.maxSize)
  {
  }

  // ---------------------------------------------------------------------------
  // Other operations
  // ---------------------------------------------------------------------------

  /** `canAddMore` */
  predicate CanAddMore(u: Uploader)
  {
    |u.files| < u.maxFiles
  }

  /** `hasFiles` */
  predicate HasFiles(u: Uploader)
  {
    |u.files| > 0
  }

  /** `canAddMore` is exactly "a free slot is left": with none left a batch is
      not examined at all, and with one left its first file is. */
  lemma CanAddMoreMeansRoom(u: Uploader, newFiles: seq<FileInfo>)
    ensures CanAddMore(u) <==> FreeSlots(u) > 0
    ensures FreeSlots(u) == 0 ==> Considered(u, newFiles) == []
    ensures CanAddMore(u) && newFiles != [] ==> Considered(u, newFiles) != [] && Considered(u, newFiles)[0] == newFiles[0]
  {
  }

  /** `hasFiles` turns false after `clearAll` and after removing the only
      entry; removing any entry frees a slot, so a list that was within its
      limit can take more afterwards. */
  lemma {:induction false} RemovalFreesSlot(u: Uploader, k: nat)
    requires UniqueIds(u) && k < |u.files|
    ensures !HasFiles(ClearAll(u))
    ensures |RemoveFile(u, u.files[k]).0.files| == |u.files| - 1
    ensures |u.files| == 1 ==> !HasFiles(RemoveFile(u, u.files[k]).0)
    ensures |u.files| <= u.maxFiles ==> CanAddMore(RemoveFile(u, u.files[k]).0)
  {
    RemoveCutsOne(u, k);
  }

  /** No two entries share an id, and every id is below the next one to hand out. */
  predicate UniqueIds(u: Uploader)
  {
    (forall i, j :: 0 <= i < j < |u.files| ==> u.files[i].id != u.files[j].id)
    && (forall k :: 0 <= k < |u.files| ==> u.files[k].id < u.nextId)
  }

  function NotEntry(e: Entry): Entry -> bool
  {
    (x: Entry) => x.id != e.id
  }

  /** `removeFile`: drops exactly the given entry, keeps the rest in order, and
      reports the removed file. */
  function RemoveFile(u: Uploader, e: Entry): (r: (Uploader, FileInfo))
    ensures r.1 == e.file
    ensures forall x :: x in r.0.files <==> x in u.files && x.id != e.id
    ensures r.0 == u.(files := r.0.files)
  {
    (u.(files := Seqs.Filter(u.files, NotEntry(e))), e.file)
  }

  /** Removing an entry keeps the ids distinct and below the next one. */
  lemma RemoveKeepsUnique(u: Uploader, e: Entry)
    requires UniqueIds(u)
    ensures UniqueIds(RemoveFile(u, e).0)
    ensures |RemoveFile(u, e).0.files| <= |u.files|
  {
    var fs := RemoveFile(u, e).0.files;
    Seqs.FilterNoDup(u.files, NotEntry(e));
    forall i, j | 0 <= i < j < |fs|
      ensures fs[i].id != fs[j].id
    {
      assert fs[i] in u.files && fs[j] in u.files;
      var a :| 0 <= a < |u.files| && u.files[a] == fs[i];
      var b :| 0 <= b < |u.files| && u.files[b] == fs[j];
      assert a != b;
    }
  }

  /** With distinct ids, removing the entry at position `k` is cutting it out. */
  lemma RemoveCutsOne(u: Uploader, k: nat)
    requires UniqueIds(u) && k < |u.files|
    ensures RemoveFile(u, u.files[k]).0.files == u.files[..k] + u.files[k + 1..]
  {
    var e := u.files[k];
    forall j | 0 <= j < |u.files| && j != k
      ensures NotEntry(e)(u.files[j])
    {
      if j < k {
        assert u.files[j].id != u.files[k].id;
      } else {
        assert u.files[k].id != u.files[j].id;
      }
    }
    Seqs.FilterDropsOne(u.files, k, NotEntry(e));
  }

  /** `clearAll`: no files and no message. */
  function ClearAll(u: Uploader): (r: Uploader)
    ensures r.files == [] && r.error == NoError
    ensures r == u.(files := [], error := NoError)
  {
    u.(files := [], error := NoError)
  }

  /** `getFileIcon`: an image MIME type wins over the extension; then pdf,
      word, excel and archive extensions; otherwise the generic icon. The MIME
      test is case-sensitive while the extension is lower-cased. */
  function FileIcon(f: FileInfo): (r: string)
    ensures Text.StartsWith(f.mime, "image/") ==> r == "fa-file-image"
    ensures !Text.StartsWith(f.mime, "image/") ==>
              var ext := Text.ToLower(Text.Last(Text.Split(f.name, '.')));
              r == (if ext == "pdf" then "fa-file-pdf"
                    else if ext in ["doc", "docx"] then "fa-file-word"
                    else if ext in ["xls", "xlsx"] then "fa-file-excel"
                    else if ext in ["zip", "rar"] then "fa-file-zipper"
                    else "fa-file")
  {
    var ext := Text.ToLower(Text.Last(Text.Split(f.name, '.')));
    if Text.StartsWith(f.mime, "image/") then "fa-file-image"
    else if ext == "pdf" then "fa-file-pdf"
    else if ext == "doc" || ext == "docx" then "fa-file-word"
    else if ext == "xls" || ext == "xlsx" then "fa-file-excel"
    else if ext == "zip" || ext == "rar" then "fa-file-zipper"
    else "fa-file"
  }

  /** `getFileIconColor`: the same tests as the icon, with no archive case. */
  function FileIconColor(f: FileInfo): (r: string)
    ensures Text.StartsWith(f.mime, "image/") ==> r == "text-info"
  {
    var ext := Text.ToLower(Text.Last(Text.Split(f.name, '.')));
    if Text.StartsWith(f.mime, "image/") then "text-info"
    else if ext == "pdf" then "text-danger"
    else if ext == "doc" || ext == "docx" then "text-primary"
    else if ext == "xls" || ext == "xlsx" then "text-success"
    else "text-secondary"
  }

  /** Icon and colour agree: each icon family has its own colour, except
      archives, which share the neutral colour of unknown files. */
  lemma IconColorAgree(f: FileInfo)
    ensures FileIcon(f) == "fa-file-image" <==> FileIconColor(f) == "text-info"
    ensures FileIcon(f) == "fa-file-pdf" <==> FileIconColor(f) == "text-danger"
    ensures FileIcon(f) == "fa-file-word" <==> FileIconColor(f) == "text-primary"
    ensures FileIcon(f) == "fa-file-excel" <==> FileIconColor(f) == "text-success"
    ensures FileIcon(f) in ["fa-file-zipper", "fa-file"] <==> FileIconColor(f) == "text-secondary"
  {
  }
}
