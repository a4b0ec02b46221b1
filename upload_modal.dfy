/**
 * frontend/src/components/UploadModal.tsx: the upload form. Text fields and the chosen file are
 * kept in `formData`; only PDF files are accepted; submission checks the required fields in a
 * fixed order, assembles the multipart entries (optional fields only when non-blank, every text
 * trimmed, the file last), sends them, and either reports success to the parent and clears the
 * form or shows the error and keeps the form.
 *
 * The upload request itself and the parent's callbacks are outside the component: the outcome
 * of the request is a parameter, and the model records what was sent (`sent`) and which
 * callbacks were called, in order (`calls`).
 */
module UploadModal {
  import opened Wrappers
  import Strings

  /** A browser `File`, reduced to what the component looks at and forwards. */
  datatype File = File(name: string, mimeType: string)

  datatype Form = Form(
    courseName: string, courseCode: string, description: string,
    professorNames: string, tags: string, file: Option<File>)

  const EmptyForm := Form("", "", "", "", "", None)

  /** The text fields `handleInputChange` is called with. */
  datatype Field = CourseName | CourseCode | Description | ProfessorNames | Tags

  const PdfType := "application/pdf"
  const NotPdfMessage := "Only PDF files are supported"

  /** The checks of `validateForm`, in the order they are made. */
  datatype Missing = NameMissing | CodeMissing | FileMissing

  function MissingMessage(m: Missing): string {
    match m
    case NameMissing => "Course name is required"
    case CodeMissing => "Course code is required"
    case FileMissing => "Please select a PDF file"
  }

  const UploadFailedMessage := "Upload failed. Please try again."

  /** JavaScript's `String.prototype.trim`. */
  function JsTrim(s: string): string {
    Strings.Trim(Strings.IsJsWhitespace, s)
  }

  function Get(f: Form, field: Field): string {
    match field
    case CourseName => f.courseName
    case CourseCode => f.courseCode
    case Description => f.description
    case ProfessorNames => f.professorNames
    case Tags => f.tags
  }

  /** `{ ...prev, [field]: value }`: the named field takes the value and nothing else changes. */
  function WithField(f: Form, field: Field, value: string): (r: Form)
    ensures Get(r, field) == value
    ensures forall g :: g != field ==> Get(r, g) == Get(f, g)
    ensures r.file == f.file
  {
    match field
    case CourseName => f.(courseName := value)
    case CourseCode => f.(courseCode := value)
    case Description => f.(description := value)
    case ProfessorNames => f.(professorNames := value)
    case Tags => f.(tags := value)
  }

  /** A text `trim()` turns into the empty string, which JavaScript treats as false. */
  predicate Blank(s: string) {
    Strings.All(s, Strings.IsJsWhitespace)
  }

  /** `validateForm`: the first failing check, or None when the form may be sent. The form
      passes exactly when the name and the code are not blank and a file is chosen; otherwise
      the first of these checks that fails is reported. */
  function Validate(f: Form): (r: Option<Missing>)
    ensures r.None? <==> !Blank(f.courseName) && !Blank(f.courseCode) && f.file.Some?
    ensures r == Some(NameMissing) <==> Blank(f.courseName)
    ensures r == Some(CodeMissing) <==> !Blank(f.courseName) && Blank(f.courseCode)
    ensures r == Some(FileMissing) <==> !Blank(f.courseName) && !Blank(f.courseCode) && f.file.None?
  {
    Strings.TrimProperties(Strings.IsJsWhitespace, f.courseName);
    Strings.TrimProperties(Strings.IsJsWhitespace, f.courseCode);
    if JsTrim(f.courseName) == [] then Some(NameMissing)
    else if JsTrim(f.courseCode) == [] then Some(CodeMissing)
    else if f.file.None? then Some(FileMissing)
    else None
  }

  // ---------------------------------------------------------------------------------------
  // The multipart entries

  /** The multipart field names. */
  datatype Key = CourseNameKey | CourseCodeKey | DescriptionKey | ProfessorNamesKey | TagsKey | FileKey

  function KeyName(k: Key): string {
    match k
    case CourseNameKey => "course_name"
    case CourseCodeKey => "course_code"
    case DescriptionKey => "description"
    case ProfessorNamesKey => "professor_names"
    case TagsKey => "tags"
    case FileKey => "file"
  }

  datatype Entry = TextEntry(key: Key, value: string) | FileEntry(key: Key, file: File)

  /** An optional field is sent, trimmed, only when its trimmed value is not empty. */
  function OptionalEntry(key: Key, value: string): seq<Entry> {
    if JsTrim(value) != [] then [TextEntry(key, JsTrim(value))] else []
  }

  function RequiredEntries(f: Form): seq<Entry> {
    [TextEntry(CourseNameKey, JsTrim(f.courseName)), TextEntry(CourseCodeKey, JsTrim(f.courseCode))]
  }

  /** The entries `handleSubmit` appends, in order, for a form that passed validation: the
      trimmed course name and code first, the file last, and at most the three optional texts
      between them. */
  function UploadEntries(f: Form): (es: seq<Entry>)
    requires f.file.Some?
    ensures 3 <= |es| <= 6
    ensures es[0] == TextEntry(CourseNameKey, JsTrim(f.courseName))
    ensures es[1] == TextEntry(CourseCodeKey, JsTrim(f.courseCode))
    ensures es[|es| - 1] == FileEntry(FileKey, f.file.value)
  {
    RequiredEntries(f)
    + OptionalEntry(DescriptionKey, f.description)
    + OptionalEntry(ProfessorNamesKey, f.professorNames)
    + OptionalEntry(TagsKey, f.tags)
    + [FileEntry(FileKey, f.file.value)]
  }

  predicate HasKey(es: seq<Entry>, key: Key) {
    exists i :: 0 <= i < |es| && es[i].key == key
  }

  lemma HasKeyConcat(a: seq<Entry>, b: seq<Entry>, key: Key)
    ensures HasKey(a + b, key) <==> HasKey(a, key) || HasKey(b, key)
  {
    if HasKey(a + b, key) {
      var i :| 0 <= i < |a + b| && (a + b)[i].key == key;
      if i >= |a| {
        assert b[i - |a|].key == key;
      }
    }
    if HasKey(b, key) {
      var i :| 0 <= i < |b| && b[i].key == key;
      assert (a + b)[|a| + i].key == key;
    }
    if HasKey(a, key) {
      var i :| 0 <= i < |a| && a[i].key == key;
      assert (a + b)[i].key == key;
    }
  }

  lemma HasKeyOptional(key: Key, value: string, k: Key)
    ensures HasKey(OptionalEntry(key, value), k) <==> k == key && JsTrim(value) != []
  {
    if k == key && JsTrim(value) != [] {
      assert OptionalEntry(key, value)[0].key == k;
    }
  }

  /** An optional key is sent exactly when its own field produced an entry. */
  lemma HasOptionalKey(f: Form, key: Key)
    requires f.file.Some? && key !in {CourseNameKey, CourseCodeKey, FileKey}
    ensures HasKey(UploadEntries(f), key) <==>
      (key == DescriptionKey && JsTrim(f.description) != []) ||
      (key == ProfessorNamesKey && JsTrim(f.professorNames) != []) ||
      (key == TagsKey && JsTrim(f.tags) != [])
  {
    var r := RequiredEntries(f);
    var d := OptionalEntry(DescriptionKey, f.description);
    var p := OptionalEntry(ProfessorNamesKey, f.professorNames);
    var t := OptionalEntry(TagsKey, f.tags);
    var file := [FileEntry(FileKey, f.file.value)];
    assert UploadEntries(f) == r + d + p + t + file;
    HasKeyConcat(r, d, key);
    HasKeyConcat(r + d, p, key);
    HasKeyConcat(r + d + p, t, key);
    HasKeyConcat(r + d + p + t, file, key);
    assert !HasKey(r, key) && !HasKey(file, key);
    HasKeyOptional(DescriptionKey, f.description, key);
    HasKeyOptional(ProfessorNamesKey, f.professorNames, key);
    HasKeyOptional(TagsKey, f.tags, key);
  }

  /** Each optional text is sent exactly when its trimmed value is not empty. */
  lemma UploadEntriesOptional(f: Form)
    requires f.file.Some?
    ensures HasKey(UploadEntries(f), DescriptionKey) <==> JsTrim(f.description) != []
    ensures HasKey(UploadEntries(f), ProfessorNamesKey) <==> JsTrim(f.professorNames) != []
    ensures HasKey(UploadEntries(f), TagsKey) <==> JsTrim(f.tags) != []
  {
    HasOptionalKey(f, DescriptionKey);
    HasOptionalKey(f, ProfessorNamesKey);
    HasOptionalKey(f, TagsKey);
  }

  /** Every text that is sent is already trimmed. */
  lemma UploadEntriesTrimmed(f: Form)
    requires f.file.Some?
    ensures forall i :: 0 <= i < |UploadEntries(f)| && UploadEntries(f)[i].TextEntry? ==>
      JsTrim(UploadEntries(f)[i].value) == UploadEntries(f)[i].value
  {
    var es := UploadEntries(f);
    var d := OptionalEntry(DescriptionKey, f.description);
    var p := OptionalEntry(ProfessorNamesKey, f.professorNames);
    forall i | 0 <= i < |es| && es[i].TextEntry?
      ensures JsTrim(es[i].value) == es[i].value
    {
      var s := if i == 0 then f.courseName else if i == 1 then f.courseCode
        else if i < 2 + |d| then f.description
        else if i < 2 + |d| + |p| then f.professorNames
        else f.tags;
      assert es[i].value == JsTrim(s);
      Strings.TrimIdempotent(Strings.IsJsWhitespace, s);
    }
  }

  // ---------------------------------------------------------------------------------------
  // The component's state and its handlers as functions

  /** What the upload request did: returned the new note, threw an `Error` with a message, or
      threw something else. */
  datatype UploadResult<N> = Uploaded(note: N) | ThrewError(message: string) | ThrewOther

  datatype Call<N> = OnSuccess(note: N) | OnClose

  datatype DragKind = DragEnter | DragOver | DragLeave | OtherDrag

  datatype Modal<N> = Modal(
    form: Form, isUploading: bool, error: Option<string>, dragActive: bool,
    sent: seq<seq<Entry>>, calls: seq<Call<N>>)

  function Initial<N>(): Modal<N> {
    Modal(EmptyForm, false, None, false, [], [])
  }

  /** `handleInputChange`: typing changes that field alone and clears any error. */
  function InputChangeStep<N>(m: Modal<N>, field: Field, value: string): (r: Modal<N>)
    ensures Get(r.form, field) == value && r.error.None? && r.form.file == m.form.file
    ensures forall g :: g != field ==> Get(r.form, g) == Get(m.form, g)
    ensures r.isUploading == m.isUploading && r.dragActive == m.dragActive
    ensures r.sent == m.sent && r.calls == m.calls
  {
    m.(form := WithField(m.form, field, value), error := None)
  }

  /** `handleFileChange`: a file that is not a PDF only sets the error; a PDF or no file is
      stored and clears the error. */
  function FileChangeStep<N>(m: Modal<N>, file: Option<File>): (r: Modal<N>)
    ensures file.Some? && file.value.mimeType != PdfType ==>
      r == m.(error := Some(NotPdfMessage))
    ensures file.None? || file.value.mimeType == PdfType ==>
      r.form.file == file && r.error.None?
    ensures forall g :: Get(r.form, g) == Get(m.form, g)
    ensures r.isUploading == m.isUploading && r.dragActive == m.dragActive
    ensures r.sent == m.sent && r.calls == m.calls
  {
    if file.Some? && file.value.mimeType != PdfType then m.(error := Some(NotPdfMessage))
    else m.(form := m.form.(file := file), error := None)
  }

  /** `handleDrag`: entering or moving over the zone activates it, leaving deactivates it. */
  function DragStep<N>(m: Modal<N>, kind: DragKind): (r: Modal<N>)
    ensures kind in {DragEnter, DragOver} ==> r.dragActive
    ensures kind == DragLeave ==> !r.dragActive
    ensures kind == OtherDrag ==> r == m
    ensures r == m.(dragActive := r.dragActive)
  {
    if kind == DragEnter || kind == DragOver then m.(dragActive := true)
    else if kind == DragLeave then m.(dragActive := false)
    else m
  }

  /** `handleDrop`: the zone is deactivated and the first dropped file, if any, goes through
      `handleFileChange`. */
  function DropStep<N>(m: Modal<N>, files: seq<File>): (r: Modal<N>)
    ensures !r.dragActive
    ensures |files| > 0 ==> r == FileChangeStep(m, Some(files[0])).(dragActive := false)
    ensures |files| == 0 ==> r == m.(dragActive := false)
  {
    var idle := m.(dragActive := false);
    if |files| > 0 then FileChangeStep(idle, Some(files[0])) else idle
  }

  /** The `try`/`finally` of `handleSubmit` once the request has settled: on success the parent
      hears of the note and is told to close, and the form is emptied; on failure the message is
      shown and the form kept. Either way the upload is over. */
  function SettleStep<N>(m: Modal<N>, result: UploadResult<N>): (r: Modal<N>)
    ensures !r.isUploading && r.sent == m.sent && r.dragActive == m.dragActive
    ensures result.Uploaded? ==>
      r.form == EmptyForm && r.error == m.error && r.calls == m.calls + [OnSuccess(result.note), OnClose]
    ensures !result.Uploaded? ==>
      r.form == m.form && r.calls == m.calls &&
      r.error == Some(if result.ThrewError? then result.message else UploadFailedMessage)
  {
    match result
    case Uploaded(note) =>
      m.(form := EmptyForm, isUploading := false, calls := m.calls + [OnSuccess(note), OnClose])
    case ThrewError(message) => m.(isUploading := false, error := Some(message))
    case ThrewOther => m.(isUploading := false, error := Some(UploadFailedMessage))
  }

  /** `handleSubmit` after validation passed: the upload starts, the entries are sent, and the
      request settles. */
  function SendStep<N>(m: Modal<N>, result: UploadResult<N>): (r: Modal<N>)
    requires m.form.file.Some?
    ensures r.sent == m.sent + [UploadEntries(m.form)] && !r.isUploading
    ensures r.error.None? <==> result.Uploaded?
  {
    SettleStep(m.(isUploading := true, error := None, sent := m.sent + [UploadEntries(m.form)]), result)
  }

  /** `handleSubmit`, from the submit event to the `finally` block. */
  function SubmitStep<N>(m: Modal<N>, result: UploadResult<N>): (r: Modal<N>)
    ensures Validate(m.form).Some? ==> r.sent == m.sent && r.calls == m.calls && r.form == m.form
    ensures Validate(m.form).None? ==> r.sent == m.sent + [UploadEntries(m.form)] && !r.isUploading
    ensures r.error.None? <==> Validate(m.form).None? && result.Uploaded?
  {
    match Validate(m.form)
    case Some(missing) => m.(error := Some(MissingMessage(missing)))
    case None => SendStep(m, result)
  }

  /** `resetAndClose`: an empty form, no error, and the parent told to close. */
  function ResetAndCloseStep<N>(m: Modal<N>): (r: Modal<N>)
    ensures r.form == EmptyForm && r.error.None? && r.calls == m.calls + [OnClose]
    ensures r.sent == m.sent && r.isUploading == m.isUploading && r.dragActive == m.dragActive
  {
    m.(form := EmptyForm, error := None, calls := m.calls + [OnClose])
  }

  // ---------------------------------------------------------------------------------------
  // What the handlers promise

  /** An invalid form is never sent: only the validation message changes. */
  lemma InvalidNeverUploads<N>(m: Modal<N>, result: UploadResult<N>)
    requires Validate(m.form).Some?
    ensures SubmitStep(m, result) == m.(error := Some(MissingMessage(Validate(m.form).value)))
  {
  }

  /** A successful upload sends the form's entries, calls `onSuccess` with the note and then
      `onClose`, and leaves the form empty, the error cleared and the upload finished. */
  lemma SuccessfulSubmit<N>(m: Modal<N>, note: N)
    requires Validate(m.form).None?
    ensures var r := SubmitStep(m, Uploaded(note));
      r.sent == m.sent + [UploadEntries(m.form)] &&
      r.calls == m.calls + [OnSuccess(note), OnClose] &&
      r.form == EmptyForm && r.error.None? && !r.isUploading
  {
  }

  /** A failed upload keeps the form, calls nothing, ends the upload and shows the error's
      message, or the fixed message when what was thrown is not an `Error`. */
  lemma FailedSubmit<N>(m: Modal<N>, result: UploadResult<N>)
    requires Validate(m.form).None? && !result.Uploaded?
    ensures var r := SubmitStep(m, result);
      r.form == m.form && r.calls == m.calls && !r.isUploading &&
      r.sent == m.sent + [UploadEntries(m.form)] &&
      r.error == Some(if result.ThrewError? then result.message else UploadFailedMessage)
  {
  }

  /** Both ways out of the modal leave the same empty form, which would not pass validation. */
  lemma ClosedFormsAreEmpty<N>(m: Modal<N>, note: N)
    requires Validate(m.form).None?
    ensures SubmitStep(m, Uploaded(note)).form == ResetAndCloseStep(m).form
    ensures Validate(ResetAndCloseStep(m).form) == Some(NameMissing)
  {
  }

  /** The stored file, when there is one, is a PDF. */
  predicate StoredFileIsPdf<N>(m: Modal<N>) {
    m.form.file.None? || m.form.file.value.mimeType == PdfType
  }

  /** Every handler keeps the stored file a PDF; in particular every file that is sent is one. */
  lemma HandlersKeepPdf<N>(
    m: Modal<N>, field: Field, value: string, file: Option<File>, kind: DragKind,
    files: seq<File>, result: UploadResult<N>)
    requires StoredFileIsPdf(m)
    ensures StoredFileIsPdf(InputChangeStep(m, field, value))
    ensures StoredFileIsPdf(FileChangeStep(m, file))
    ensures StoredFileIsPdf(DragStep(m, kind))
    ensures StoredFileIsPdf(DropStep(m, files))
    ensures StoredFileIsPdf(SubmitStep(m, result))
    ensures StoredFileIsPdf(ResetAndCloseStep(m))
  {
    EditingKeepsPdf(m, field, value, file, kind, files);
    SubmitKeepsPdf(m, result);
  }

  lemma EditingKeepsPdf<N>(
    m: Modal<N>, field: Field, value: string, file: Option<File>, kind: DragKind, files: seq<File>)
    requires StoredFileIsPdf(m)
    ensures StoredFileIsPdf(InputChangeStep(m, field, value))
    ensures StoredFileIsPdf(FileChangeStep(m, file))
    ensures StoredFileIsPdf(DragStep(m, kind))
    ensures StoredFileIsPdf(DropStep(m, files))
  {
  }

  lemma SubmitKeepsPdf<N>(m: Modal<N>, result: UploadResult<N>)
    requires StoredFileIsPdf(m)
    ensures StoredFileIsPdf(SubmitStep(m, result))
    ensures StoredFileIsPdf(ResetAndCloseStep(m))
  {
  }

  /** Appends an optional field to the `FormData`: trimmed, and only when not blank. */
  method AppendOptional(upload: seq<Entry>, key: Key, value: string) returns (r: seq<Entry>)
    ensures r == upload + OptionalEntry(key, value)
  {
    r := upload;
    var trimmed := JsTrim(value);
    if trimmed != [] {
      r := r + [TextEntry(key, trimmed)];
    }
  }

  /** The `FormData` of `handleSubmit`, appended to field by field. */
  method Assemble(form: Form) returns (upload: seq<Entry>)
    requires form.file.Some?
    ensures upload == UploadEntries(form)
  {
    upload := [TextEntry(CourseNameKey, JsTrim(form.courseName))];
    upload := upload + [TextEntry(CourseCodeKey, JsTrim(form.courseCode))];
    ghost var expected := RequiredEntries(form);
    assert upload == expected;
    upload := AppendOptional(upload, DescriptionKey, form.description);
    expected := expected + OptionalEntry(DescriptionKey, form.description);
    assert upload == expected;
    upload := AppendOptional(upload, ProfessorNamesKey, form.professorNames);
    expected := expected + OptionalEntry(ProfessorNamesKey, form.professorNames);
    assert upload == expected;
    upload := AppendOptional(upload, TagsKey, form.tags);
    expected := expected + OptionalEntry(TagsKey, form.tags);
    assert upload == expected;
    upload := upload + [FileEntry(FileKey, form.file.value)];
  }

  // ---------------------------------------------------------------------------------------
  // The component

  /** The modal's `useState` fields and its handlers. */
  class Component<N> {
    var formData: Form
    var isUploading: bool
    var error: Option<string>
    var dragActive: bool
    var sent: seq<seq<Entry>>
    var calls: seq<Call<N>>

    function State(): Modal<N>
      reads this
    {
      Modal(formData, isUploading, error, dragActive, sent, calls)
    }

    constructor ()
      ensures State() == Initial()
    {
      formData := EmptyForm;
      isUploading := false;
      error := None;
      dragActive := false;
      sent := [];
      calls := [];
    }

    method HandleInputChange(field: Field, value: string)
      modifies this
      ensures State() == InputChangeStep(old(State()), field, value)
    {
      formData := WithField(formData, field, value);
      error := None;
    }

    method HandleFileChange(file: Option<File>)
      modifies this
      ensures State() == FileChangeStep(old(State()), file)
    {
      if file.Some? && file.value.mimeType != PdfType {
        error := Some(NotPdfMessage);
        return;
      }
      formData := formData.(file := file);
      error := None;
    }

    method HandleDrag(kind: DragKind)
      modifies this
      ensures State() == DragStep(old(State()), kind)
    {
      if kind == DragEnter || kind == DragOver {
        dragActive := true;
      } else if kind == DragLeave {
        dragActive := false;
      }
    }

    method HandleDrop(files: seq<File>)
      modifies this
      ensures State() == DropStep(old(State()), files)
    {
      dragActive := false;
      if |files| > 0 {
        HandleFileChange(Some(files[0]));
      }
    }

    /** `validateForm`: sets the first failing check's message. */
    method ValidateForm() returns (ok: bool)
      modifies this
      ensures ok <==> Validate(old(formData)).None?
      ensures ok ==> State() == old(State())
      ensures !ok ==> State() == old(State()).(error := Some(MissingMessage(Validate(old(formData)).value)))
    {
      var missing := Validate(formData);
      if missing.Some? {
        error := Some(MissingMessage(missing.value));
        return false;
      }
      return true;
    }

    /** The request has settled with `result`. */
    method Settle(result: UploadResult<N>)
      modifies this
      ensures State() == SettleStep(old(State()), result)
    {
      match result {
        case Uploaded(note) =>
          calls := calls + [OnSuccess(note)];
          calls := calls + [OnClose];
          formData := EmptyForm;
        case ThrewError(message) =>
          error := Some(message);
        case ThrewOther =>
          error := Some(UploadFailedMessage);
      }
      isUploading := false;
    }

    method Send(result: UploadResult<N>)
      requires formData.file.Some?
      modifies this
      ensures State() == SendStep(old(State()), result)
    {
      isUploading := true;
      error := None;
      var upload := Assemble(formData);
      sent := sent + [upload];
      Settle(result);
    }

    method HandleSubmit(result: UploadResult<N>)
      modifies this
      ensures State() == SubmitStep(old(State()), result)
    {
      var ok := ValidateForm();
      if !ok {
        return;
      }
      Send(result);
    }

    method ResetAndClose()
      modifies this
      ensures State() == ResetAndCloseStep(old(State()))
    {
      formData := EmptyForm;
      error := None;
      calls := calls + [OnClose];
    }
  }
}
