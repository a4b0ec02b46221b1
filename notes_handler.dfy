/**
 * backend/src/api/handlers/notes.rs: the note search endpoint and the multipart upload
 * endpoint. The database, `Uuid::parse_str`, the uploads directory and the file writes are
 * outside the core: their outcomes are parameters, and each multipart field carries the
 * outcomes of the reads and writes done on it.
 */
module NotesHandler {
  import opened Wrappers
  import opened Strings
  import opened PathUtils
  import opened DbErrors

  /** The note-error variants as this handler uses them. */
  datatype NoteError =
    | InvalidQuery(msg: string)
    | Unknown(msg: string, db: DBError)
    | DirectoryError(msg: string, io: string)
    | FileError(msg: string)

  // ---------------------------------------------------------------------------------------
  // search_notes

  /** `search_notes`: an empty query is rejected before the database is asked; otherwise the
      database's notes are returned, or its error wrapped as "Failed to fetch notes". */
  function SearchNotes<N>(query: string, searchDb: string -> Result<seq<N>, DBError>): (r: Result<seq<N>, NoteError>)
    ensures r.Err? && r.error.InvalidQuery? <==> query == ""
    ensures query == "" ==> r.error.msg == "Query cannot be empty"
    ensures query != "" && r.Ok? ==> searchDb(query) == Ok(r.value)
    ensures query != "" && r.Err? ==> searchDb(query).Err? && r.error == Unknown("Failed to fetch notes", searchDb(query).error)
  {
    if query == "" then Err(InvalidQuery("Query cannot be empty"))
    else match searchDb(query)
      case Ok(notes) => Ok(notes)
      case Err(e) => Err(Unknown("Failed to fetch notes", e))
  }

  /** The empty query is answered the same way whatever the database holds: it is never asked. */
  lemma EmptyQueryIgnoresDatabase<N>(db1: string -> Result<seq<N>, DBError>, db2: string -> Result<seq<N>, DBError>)
    ensures SearchNotes("", db1) == SearchNotes("", db2)
  {
  }

  // ---------------------------------------------------------------------------------------
  // Paths of uploaded files

  /** The segments of a Unix path that can be its last component: empty segments (from "//"
      or a trailing '/') and "." segments are not components. */
  function PathSegments(parts: seq<string>): (r: seq<string>)
    ensures forall i :: 0 <= i < |r| ==> r[i] != "" && r[i] != "." && r[i] in parts
  {
    if parts == [] then []
    else (if parts[0] == "" || parts[0] == "." then [] else [parts[0]]) + PathSegments(parts[1..])
  }

  /** `Path::file_name`: the last component when it is a normal one (not "..", not the root). */
  function FileName(path: string): (r: Option<string>)
    ensures r.Some? ==> r.value != "" && r.value != "." && r.value != ".." && '/' !in r.value
  {
    var segments := PathSegments(SplitOn(path, '/'));
    if segments == [] || segments[|segments| - 1] == ".." then None
    else
      assert segments[|segments| - 1] in SplitOn(path, '/');
      Some(segments[|segments| - 1])
  }

  /** `Path::extension`: the text after the last '.' of the file name, unless the name has no
      '.' or its only '.' is its first character. */
  function Extension(path: string): (r: Option<string>)
    ensures r.Some? ==>
      (FileName(path).Some? &&
       var name := FileName(path).value;
       |r.value| + 1 < |name| && name[|name| - |r.value| - 1] == '.' &&
       name[|name| - |r.value|..] == r.value && '.' !in r.value)
    ensures r.None? && FileName(path).Some? ==>
      (var name := FileName(path).value;
       forall k :: 0 < k < |name| ==> name[k] != '.')
  {
    match FileName(path)
    case None => None
    case Some(name) =>
      var n := AfterLast(name, '.');
      if n <= 1 then None else Some(name[n..])
  }

  /** The directory uploads are written to. */
  const UploadDir := "uploads"

  // ---------------------------------------------------------------------------------------
  // The multipart fields

  /** One multipart field, with the outcome of every effect the handler performs on it. */
  datatype Part = Part(
    name: Option<string>,       // `field.name()`
    fileName: Option<string>,   // `field.file_name()`
    text: Option<string>,       // `field.text()`: None when it fails
    bytesReadable: bool,        // `field.bytes()` succeeds
    freshUuid: string,          // the hyphenated `Uuid::new_v4()` drawn for a file field
    writeSucceeds: bool)        // `fs::write` of the file succeeds

  /** What `multipart.next_field()` yields before the stream ends: a field, or a read error. */
  datatype Next = Field(part: Part) | ReadError

  /** The name a file is stored under: the fresh UUID, a '.', and the extension of the
      uploaded name ("unknown_file" when there is none), empty when it has none. */
  function StoredName(p: Part): (r: string)
    ensures |p.freshUuid| < |r| && r[..|p.freshUuid|] == p.freshUuid && r[|p.freshUuid|] == '.'
    ensures '.' !in r[|p.freshUuid| + 1..]
    ensures r[|p.freshUuid| + 1..] == OrElse(Extension(OrElse(p.fileName, "unknown_file")), "")
  {
    var ext := OrElse(Extension(OrElse(p.fileName, "unknown_file")), "");
    ExtensionDotFree(OrElse(p.fileName, "unknown_file"));
    DotSeparated(p.freshUuid, ext);
    p.freshUuid + "." + ext
  }

  /** An extension, or the "" that stands for none, holds no '.'. */
  lemma ExtensionDotFree(path: string)
    ensures '.' !in OrElse(Extension(path), "")
  {
  }

  /** The parts of "<prefix>.<suffix>" can be read back from it. */
  lemma DotSeparated(prefix: string, suffix: string)
    requires '.' !in suffix
    ensures var r := prefix + "." + suffix;
      |prefix| < |r| && r[..|prefix|] == prefix && r[|prefix|] == '.' &&
      r[|prefix| + 1..] == suffix && '.' !in r[|prefix| + 1..]
  {
    var r := prefix + "." + suffix;
    assert r[|prefix| + 1..] == suffix;
  }

  /** Where the file is written: its stored name inside "uploads". */
  function StoredPath(p: Part): (r: string)
    ensures EndsWith(r, StoredName(p))
    ensures !IsAbsolute(StoredName(p)) ==> StartsWith(r, UploadDir + "/")
  {
    PathJoin(UploadDir, StoredName(p))
  }

  /** A file is stored as "uploads/<uuid>.<ext>". */
  lemma StoredPathShape(p: Part)
    requires p.freshUuid == [] || p.freshUuid[0] != '/'
    ensures StoredPath(p) == UploadDir + "/" + StoredName(p)
  {
    var name := StoredName(p);
    assert name[0] == if p.freshUuid == [] then '.' else p.freshUuid[0];
  }

  /** A plain name with no '/' and no '.' is its own file name and has no extension. */
  lemma PlainNameHasNoExtension(name: string)
    requires name != "" && '/' !in name && '.' !in name
    ensures FileName(name) == Some(name)
    ensures Extension(name) == None
  {
    SplitOnAbsent(name, '/');
    assert PathSegments([name]) == [name] by {
      assert [name][1..] == [];
      assert name != "." by { assert name[0] != '.'; }
    }
  }

  /** A single-component name "<stem>.<ext>" has extension `ext` when `ext` holds no '.' and
      `stem` is not empty ("notes.pdf" gives "pdf", "archive.tar.gz" gives "gz", "notes." gives
      ""); the name ".." is excluded, as it is not a file name at all. */
  lemma ExtensionAfterLastDot(stem: string, ext: string)
    requires stem != "" && '/' !in stem && '/' !in ext && '.' !in ext
    requires !(stem == "." && ext == "")
    ensures Extension(stem + "." + ext) == Some(ext)
  {
    var name := stem + "." + ext;
    assert '/' !in name by {
      forall k | 0 <= k < |name| ensures name[k] != '/' {
        if k < |stem| { assert name[k] == stem[k]; }
        else if k > |stem| { assert name[k] == ext[k - |stem| - 1]; }
      }
    }
    SplitOnAbsent(name, '/');
    assert PathSegments([name]) == [name] by {
      assert [name][1..] == [];
      assert name != "." && name != "" by { assert |name| >= 2; }
    }
    AfterLastSplit(stem, ext, '.');
    assert name[|stem| + 1..] == ext;
  }

  /** A hidden file name ".<rest>" without another '.' has no extension. */
  lemma HiddenNameHasNoExtension(rest: string)
    requires rest != "" && '/' !in rest && '.' !in rest
    ensures Extension("." + rest) == None
  {
    var name := "." + rest;
    assert '/' !in name by {
      forall k | 0 <= k < |name| ensures name[k] != '/' {
        if k > 0 { assert name[k] == rest[k - 1]; }
      }
    }
    SplitOnAbsent(name, '/');
    assert PathSegments([name]) == [name] by {
      assert [name][1..] == [];
      assert |name| >= 2;
    }
    assert name != ".." by { assert name[1] == rest[0]; }
    AfterLastSplit("", rest, '.');
    assert "" + "." + rest == name;
  }

  /** An uploaded "stem.ext" is stored as "<uuid>.ext": the extension survives the rename. */
  lemma StoredNameKeepsExtension(p: Part, stem: string, ext: string)
    requires p.fileName == Some(stem + "." + ext)
    requires stem != "" && '/' !in stem && '/' !in ext && '.' !in ext
    requires !(stem == "." && ext == "")
    ensures StoredName(p) == p.freshUuid + "." + ext
  {
    ExtensionAfterLastDot(stem, ext);
  }

  /** A dot-free, slash-free uploaded name has no extension, so it is stored as "<uuid>.". */
  lemma StoredNameWithoutExtension(p: Part, name: string)
    requires p.fileName == Some(name)
    requires name != "" && '/' !in name && '.' !in name
    ensures StoredName(p) == p.freshUuid + "."
  {
    PlainNameHasNoExtension(name);
  }

  /** A field without a file name is stored with an empty extension, "<uuid>.". */
  lemma UnnamedFileHasEmptyExtension(p: Part)
    requires p.fileName.None?
    ensures StoredName(p) == p.freshUuid + "."
  {
    PlainNameHasNoExtension("unknown_file");
  }

  // ---------------------------------------------------------------------------------------
  // List fields

  /** Every piece neither starts nor ends with whitespace. */
  predicate Trimmed(pieces: seq<string>) {
    forall i :: 0 <= i < |pieces| ==>
      (pieces[i] == [] || (!IsRustWhitespace(pieces[i][0]) && !IsRustWhitespace(pieces[i][|pieces[i]| - 1])))
  }

  /** A list field: `data.split(',').map(|s| s.trim())`. There is one more piece than there are
      commas, empty pieces are kept, and every piece is trimmed. */
  function SplitList(data: string): (r: seq<string>)
    ensures |r| == Count(data, ',') + 1
    ensures Trimmed(r)
    ensures forall i :: 0 <= i < |r| ==> ',' !in r[i]
  {
    var pieces := SplitOn(data, ',');
    var r := seq(|pieces|, i requires 0 <= i < |pieces| => Trim(IsRustWhitespace, pieces[i]));
    assert Trimmed(r) && forall i :: 0 <= i < |r| ==> ',' !in r[i] by {
      forall i | 0 <= i < |r|
        ensures r[i] == [] || (!IsRustWhitespace(r[i][0]) && !IsRustWhitespace(r[i][|r[i]| - 1]))
        ensures ',' !in r[i]
      {
        TrimProperties(IsRustWhitespace, pieces[i]);
      }
    }
    r
  }

  /** When no piece has whitespace around it, the split can be undone: joining the pieces with
      ',' gives back the field. */
  lemma SplitListJoin(data: string)
    requires Trimmed(SplitOn(data, ','))
    ensures JoinWith(SplitList(data), ",") == data
  {
    assert SplitList(data) == SplitOn(data, ',');
    JoinSplit(data, ',');
  }

  // ---------------------------------------------------------------------------------------
  // The field loop

  /** The handler's mutable locals. */
  datatype Gathered = Gathered(
    title: string,
    description: Option<string>,
    uploaderId: string,
    professorNames: Option<seq<string>>,
    courseNames: Option<seq<string>>,
    tags: Option<seq<string>>,
    filePath: Option<string>)

  const Initial := Gathered("", None, "", None, None, None, None)

  /** The field names the handler records. */
  const TextFieldNames := {"title", "description", "uploader_id", "professor_names", "course_names", "tags"}

  /** The text of a text field stored under its name; any other name changes nothing. */
  function Store(g: Gathered, name: string, data: string): (r: Gathered)
    ensures SameExcept(g, r, name) && r.filePath == g.filePath
    ensures name !in TextFieldNames ==> r == g
    ensures name == "title" ==> r.title == data
    ensures name == "description" ==> r.description == Some(data)
    ensures name == "uploader_id" ==> r.uploaderId == data
    ensures name == "professor_names" ==> r.professorNames == Some(SplitList(data))
    ensures name == "course_names" ==> r.courseNames == Some(SplitList(data))
    ensures name == "tags" ==> r.tags == Some(SplitList(data))
  {
    match name
    case "title" => g.(title := data)
    case "description" => g.(description := Some(data))
    case "uploader_id" => g.(uploaderId := data)
    case "professor_names" => g.(professorNames := Some(SplitList(data)))
    case "course_names" => g.(courseNames := Some(SplitList(data)))
    case "tags" => g.(tags := Some(SplitList(data)))
    case _ => g
  }

  /** Every local other than the one the field `name` sets is the same in `g` and `h`. */
  predicate SameExcept(g: Gathered, h: Gathered, name: string) {
    (name != "title" ==> h.title == g.title) &&
    (name != "description" ==> h.description == g.description) &&
    (name != "uploader_id" ==> h.uploaderId == g.uploaderId) &&
    (name != "professor_names" ==> h.professorNames == g.professorNames) &&
    (name != "course_names" ==> h.courseNames == g.courseNames) &&
    (name != "tags" ==> h.tags == g.tags) &&
    (name != "file" ==> h.filePath == g.filePath)
  }

  /** One pass of the loop body. A nameless field is skipped. The file field reads its bytes
      and writes them to "uploads/<uuid>.<ext>"; a text field reads its text. Each read or write
      failure ends the handler with a `FileError`. */
  function Absorb(g: Gathered, p: Part): (r: Result<Gathered, NoteError>)
    ensures p.name.None? ==> r == Ok(g)
    ensures r.Err? ==> p.name.Some? && r.error.FileError?
    ensures r.Ok? && p.name.Some? ==> SameExcept(g, r.value, p.name.value)
    ensures p.name.Some? && p.name.value !in TextFieldNames + {"file"} && p.text.Some? ==> r == Ok(g)
  {
    match p.name
    case None => Ok(g)
    case Some(name) =>
      if name == "file" then
        if !p.bytesReadable then Err(FileError("Failed to read file bytes"))
        else if p.writeSucceeds then Ok(g.(filePath := Some(StoredPath(p))))
        else Err(FileError("Failed to save file"))
      else match p.text
        case None => Err(FileError("Invalid format for field: " + name))
        case Some(data) => Ok(Store(g, name, data))
  }

  /** The `while let Ok(Some(field))` loop from the locals `g`: it stops at the end of the
      stream or at a read error, and returns early on a failed field. */
  function GatherFrom(g: Gathered, items: seq<Next>): (r: Result<Gathered, NoteError>)
    ensures r.Err? ==> r.error.FileError?
    decreases |items|
  {
    if items == [] || items[0].ReadError? then Ok(g)
    else match Absorb(g, items[0].part)
      case Err(e) => Err(e)
      case Ok(h) => GatherFrom(h, items[1..])
  }

  predicate NoReadError(items: seq<Next>) {
    forall i :: 0 <= i < |items| ==> items[i].Field?
  }

  /** A read error ends the loop silently: whatever follows it is never looked at. */
  lemma {:induction false} ReadErrorEndsLoop(g: Gathered, a: seq<Next>, b: seq<Next>)
    ensures GatherFrom(g, a + [ReadError] + b) == GatherFrom(g, a)
    decreases |a|
  {
    if a == [] {
      assert (a + [ReadError] + b)[0] == ReadError;
    } else {
      assert (a + [ReadError] + b)[0] == a[0];
      if a[0].Field? && Absorb(g, a[0].part).Ok? {
        assert (a + [ReadError] + b)[1..] == a[1..] + [ReadError] + b;
        ReadErrorEndsLoop(Absorb(g, a[0].part).value, a[1..], b);
      }
    }
  }

  /** A nameless field, or a readable field whose name is not recorded, is skipped. */
  lemma IgnoredFieldSkipped(g: Gathered, p: Part, rest: seq<Next>)
    requires p.name.None? || (p.name.value !in TextFieldNames + {"file"} && p.text.Some?)
    ensures GatherFrom(g, [Field(p)] + rest) == GatherFrom(g, rest)
  {
    assert ([Field(p)] + rest)[1..] == rest;
  }

  /** Running the loop over `a + b` is running it over `a`, then over `b` from where `a` left
      the locals, as long as `a` holds no read error. */
  lemma {:induction false} GatherConcat(g: Gathered, a: seq<Next>, b: seq<Next>)
    requires NoReadError(a)
    ensures GatherFrom(g, a + b) == match GatherFrom(g, a)
      case Err(e) => Err(e)
      case Ok(h) => GatherFrom(h, b)
    decreases |a|
  {
    if a == [] {
      assert a + b == b;
    } else {
      assert (a + b)[0] == a[0];
      assert (a + b)[1..] == a[1..] + b;
      if Absorb(g, a[0].part).Ok? {
        GatherConcat(Absorb(g, a[0].part).value, a[1..], b);
      }
    }
  }

  /** The text of the last readable field named `name`, looking from the end. */
  function LastText(items: seq<Next>, name: string): Option<string> {
    if items == [] then None
    else
      var x := items[|items| - 1];
      if x.Field? && x.part.name == Some(name) && x.part.text.Some? then Some(x.part.text.value)
      else LastText(items[..|items| - 1], name)
  }

  /** The last field named "file". */
  function LastFile(items: seq<Next>): Option<Part> {
    if items == [] then None
    else
      var x := items[|items| - 1];
      if x.Field? && x.part.name == Some("file") then Some(x.part)
      else LastFile(items[..|items| - 1])
  }

  function OrElse<T>(o: Option<T>, d: T): T {
    if o.Some? then o.value else d
  }

  function ListOf(o: Option<string>, d: Option<seq<string>>): Option<seq<string>> {
    if o.Some? then Some(SplitList(o.value)) else d
  }

  /** What a successful loop gathered, stated field by field against the last occurrence of
      each name: for every recorded field, the last occurrence wins. */
  predicate GatheredFromLast(g: Gathered, items: seq<Next>, h: Gathered) {
    TextsFromLast(g, items, h) && ListsFromLast(g, items, h) &&
    h.filePath == (if LastFile(items).Some? then Some(StoredPath(LastFile(items).value)) else g.filePath)
  }

  predicate TextsFromLast(g: Gathered, items: seq<Next>, h: Gathered) {
    h.title == OrElse(LastText(items, "title"), g.title) &&
    h.description == (if LastText(items, "description").Some? then LastText(items, "description") else g.description) &&
    h.uploaderId == OrElse(LastText(items, "uploader_id"), g.uploaderId)
  }

  predicate ListsFromLast(g: Gathered, items: seq<Next>, h: Gathered) {
    h.professorNames == ListOf(LastText(items, "professor_names"), g.professorNames) &&
    h.courseNames == ListOf(LastText(items, "course_names"), g.courseNames) &&
    h.tags == ListOf(LastText(items, "tags"), g.tags)
  }

  lemma LastTextSnoc(items: seq<Next>, p: Part, name: string)
    ensures LastText(items + [Field(p)], name) ==
      if p.name == Some(name) && p.text.Some? then p.text else LastText(items, name)
  {
    assert (items + [Field(p)])[..|items|] == items;
  }

  lemma LastFileSnoc(items: seq<Next>, p: Part)
    ensures LastFile(items + [Field(p)]) == if p.name == Some("file") then Some(p) else LastFile(items)
  {
    assert (items + [Field(p)])[..|items|] == items;
  }

  /** One more field on the end of the stream. */
  lemma LastFieldStep(g: Gathered, items: seq<Next>, h: Gathered, p: Part)
    requires GatheredFromLast(g, items, h)
    requires Absorb(h, p).Ok?
    ensures GatheredFromLast(g, items + [Field(p)], Absorb(h, p).value)
  {
    var h' := Absorb(h, p).value;
    LastTextSnoc(items, p, "title");
    LastTextSnoc(items, p, "description");
    LastTextSnoc(items, p, "uploader_id");
    assert TextsFromLast(g, items + [Field(p)], h');
    LastListsStep(g, items, h, p);
    LastFileSnoc(items, p);
  }

  lemma LastListsStep(g: Gathered, items: seq<Next>, h: Gathered, p: Part)
    requires ListsFromLast(g, items, h)
    requires Absorb(h, p).Ok?
    ensures ListsFromLast(g, items + [Field(p)], Absorb(h, p).value)
  {
    LastTextSnoc(items, p, "professor_names");
    LastTextSnoc(items, p, "course_names");
    LastTextSnoc(items, p, "tags");
  }

  /** For a stream without read errors that the loop gets through, the gathered locals are
      exactly those given by the last occurrence of each field name. */
  lemma {:induction false} GatherTakesLast(g: Gathered, items: seq<Next>)
    requires NoReadError(items)
    requires GatherFrom(g, items).Ok?
    ensures GatheredFromLast(g, items, GatherFrom(g, items).value)
    decreases |items|
  {
    if items == [] {
    } else {
      var front := items[..|items| - 1];
      var p := items[|items| - 1].part;
      assert items == front + [Field(p)];
      GatherConcat(g, front, [Field(p)]);
      var one := [Field(p)];
      assert one[1..] == [];
      GatherTakesLast(g, front);
      LastFieldStep(g, front, GatherFrom(g, front).value, p);
    }
  }

  // ---------------------------------------------------------------------------------------
  // Validation and the note record

  /** `CreateNote`, with the parsed uploader id of type `U`. */
  datatype CreateNote<U> = CreateNote(
    title: string,
    description: Option<string>,
    professorNames: Option<seq<string>>,
    courseNames: Option<seq<string>>,
    tags: Option<seq<string>>,
    filePath: string,
    uploaderId: U)

  /** The checks after the loop, in order: a title, a parsable uploader id, a stored file. The
      first failing check decides the error; when all pass the note carries exactly the
      gathered values. */
  function Validate<U>(g: Gathered, parseUuid: string -> Option<U>): (r: Result<CreateNote<U>, NoteError>)
    ensures r == Err(InvalidQuery("Title is required")) <==> g.title == ""
    ensures r == Err(InvalidQuery("Invalid or missing uploader_id")) <==>
      g.title != "" && parseUuid(g.uploaderId).None?
    ensures r == Err(InvalidQuery("File not provided")) <==>
      g.title != "" && parseUuid(g.uploaderId).Some? && g.filePath.None?
    ensures r.Ok? <==> g.title != "" && parseUuid(g.uploaderId).Some? && g.filePath.Some?
    ensures r.Ok? ==> r.value == CreateNote(g.title, g.description, g.professorNames, g.courseNames,
      g.tags, g.filePath.value, parseUuid(g.uploaderId).value)
  {
    if g.title == "" then Err(InvalidQuery("Title is required"))
    else match parseUuid(g.uploaderId)
      case None => Err(InvalidQuery("Invalid or missing uploader_id"))
      case Some(id) =>
        match g.filePath
        case None => Err(InvalidQuery("File not provided"))
        case Some(path) => Ok(CreateNote(g.title, g.description, g.professorNames, g.courseNames, g.tags, path, id))
  }

  /** `upload_note` from start to end. `dirExists` says whether "uploads" exists, and
      `createDirError` is the error of creating it (None when that succeeds); `createNote` is
      the database insert. */
  function UploadOutcome<U, N>(
    dirExists: bool, createDirError: Option<string>, items: seq<Next>,
    parseUuid: string -> Option<U>, createNote: CreateNote<U> -> Result<N, DBError>): (r: Result<N, NoteError>)
    ensures !dirExists && createDirError.Some? ==>
      r == Err(DirectoryError("Failed to create upload dir", createDirError.value))
    ensures r.Ok? ==>
      GatherFrom(Initial, items).Ok? && Validate(GatherFrom(Initial, items).value, parseUuid).Ok? &&
      createNote(Validate(GatherFrom(Initial, items).value, parseUuid).value) == Ok(r.value)
    ensures r.Err? && r.error.Unknown? ==> r.error.msg == "Failed to create note"
    // Once the directory is there, a loop error and a validation error come back unchanged.
    ensures (dirExists || createDirError.None?) && GatherFrom(Initial, items).Err? ==>
      r == Err(GatherFrom(Initial, items).error)
    ensures ((dirExists || createDirError.None?) && GatherFrom(Initial, items).Ok? &&
      Validate(GatherFrom(Initial, items).value, parseUuid).Err?) ==>
      r == Err(Validate(GatherFrom(Initial, items).value, parseUuid).error)
    // A validated note goes to the database, whose success is the answer and whose failure is
    // wrapped as "Failed to create note".
    ensures ((dirExists || createDirError.None?) && GatherFrom(Initial, items).Ok? &&
      Validate(GatherFrom(Initial, items).value, parseUuid).Ok?) ==>
      var note := Validate(GatherFrom(Initial, items).value, parseUuid).value;
      (createNote(note).Ok? ==> r == Ok(createNote(note).value)) &&
      (createNote(note).Err? ==> r == Err(Unknown("Failed to create note", createNote(note).error)))
  {
    if !dirExists && createDirError.Some? then Err(DirectoryError("Failed to create upload dir", createDirError.value))
    else match GatherFrom(Initial, items)
      case Err(e) => Err(e)
      case Ok(g) =>
        match Validate(g, parseUuid)
        case Err(e) => Err(e)
        case Ok(note) =>
          match createNote(note)
          case Ok(created) => Ok(created)
          case Err(e) => Err(Unknown("Failed to create note", e))
  }

  /** The database is reached only with a validated note: whenever the directory, the loop or
      validation fails, the outcome is the same whatever the database would do. */
  lemma DatabaseOnlyAfterValidation<U, N>(
    dirExists: bool, createDirError: Option<string>, items: seq<Next>, parseUuid: string -> Option<U>,
    db1: CreateNote<U> -> Result<N, DBError>, db2: CreateNote<U> -> Result<N, DBError>)
    requires (!dirExists && createDirError.Some?) || GatherFrom(Initial, items).Err?
      || Validate(GatherFrom(Initial, items).value, parseUuid).Err?
    ensures UploadOutcome(dirExists, createDirError, items, parseUuid, db1)
      == UploadOutcome(dirExists, createDirError, items, parseUuid, db2)
  {
  }

  /** A stream whose title fields are all empty or absent is refused with "Title is required",
      whatever else it holds, once the directory exists and every field could be read. */
  lemma NoTitleRefused<U, N>(items: seq<Next>, parseUuid: string -> Option<U>, createNote: CreateNote<U> -> Result<N, DBError>)
    requires NoReadError(items) && GatherFrom(Initial, items).Ok?
    requires OrElse(LastText(items, "title"), "") == ""
    ensures UploadOutcome(true, None, items, parseUuid, createNote) == Err(InvalidQuery("Title is required"))
  {
    GatherTakesLast(Initial, items);
  }

  /** The handler as the source runs it: a `while` loop over the stream updating the locals. */
  method UploadNote<U, N>(
    dirExists: bool, createDirError: Option<string>, items: seq<Next>,
    parseUuid: string -> Option<U>, createNote: CreateNote<U> -> Result<N, DBError>)
    returns (r: Result<N, NoteError>)
    ensures r == UploadOutcome(dirExists, createDirError, items, parseUuid, createNote)
  {
    if !dirExists && createDirError.Some? {
      return Err(DirectoryError("Failed to create upload dir", createDirError.value));
    }
    var title := "";
    var description: Option<string> := None;
    var uploaderIdStr := "";
    var professorNames: Option<seq<string>> := None;
    var courseNames: Option<seq<string>> := None;
    var tags: Option<seq<string>> := None;
    var filePath: Option<string> := None;
    var i := 0;
    while i < |items| && items[i].Field?
      invariant 0 <= i <= |items|
      invariant GatherFrom(Initial, items) ==
        GatherFrom(Gathered(title, description, uploaderIdStr, professorNames, courseNames, tags, filePath), items[i..])
    {
      var field := items[i].part;
      i := i + 1;
      if field.name.None? {
        continue;
      }
      var name := field.name.value;
      if name == "file" {
        if !field.bytesReadable {
          return Err(FileError("Failed to read file bytes"));
        }
        if field.writeSucceeds {
          filePath := Some(StoredPath(field));
        } else {
          return Err(FileError("Failed to save file"));
        }
        continue;
      }
      if field.text.None? {
        return Err(FileError("Invalid format for field: " + name));
      }
      var data := field.text.value;
      match name {
        case "title" => title := data;
        case "description" => description := Some(data);
        case "uploader_id" => uploaderIdStr := data;
        case "professor_names" => professorNames := Some(SplitList(data));
        case "course_names" => courseNames := Some(SplitList(data));
        case "tags" => tags := Some(SplitList(data));
        case _ =>
      }
    }
    var g := Gathered(title, description, uploaderIdStr, professorNames, courseNames, tags, filePath);
    if i < |items| {
      assert items[i..][0] == ReadError;
    }
    assert GatherFrom(Initial, items) == Ok(g);
    var checked := Validate(g, parseUuid);
    if checked.Err? {
      return Err(checked.error);
    }
    var outcome := createNote(checked.value);
    match outcome {
      case Ok(created) => r := Ok(created);
      case Err(e) => r := Err(Unknown("Failed to create note", e));
    }
  }
}
