# cfmn notes sharing: a Dafny model of its core

cfmn is a course-notes sharing site. The project models the following parts of it:

- **Backend, Rust / axum.**
  - `Paths` (`backend/src/pathutils.rs`) builds where an uploaded note lives: its slug, its system path and its URL. It also sanitises file names.
  - The note handlers (`backend/src/api/handlers/notes.rs`) cover the search entry check and the multipart upload. The upload loop collects the fields, splits the list fields, names the stored file and validates in a fixed order.
  - The search stub (`backend/src/api/handlers/search.rs`).
  - The error types and how they become HTTP responses (`backend/src/api/errors.rs` and `backend/src/db/errors.rs`).
- **Frontend, React / TypeScript.**
  - The note card (`CourseCard.tsx`) gates its actions on sign-in and keeps local like/dislike toggles.
  - The header (`Header.tsx`) gates the upload modal on sign-in.
  - The upload modal (`UploadModal.tsx`) handles PDF-only file choice, validation, assembly of the multipart entries, and what success and failure do.
  - The auth provider (`AuthContext.tsx`) holds the session: user, loading flag, and the `auth_token` in local storage.

Files:

| file | models |
|---|---|
| `wrappers.dfy` | the `Option`/`Result` datatypes |
| `strings.dfy` | the string operations the core relies on: Rust and JavaScript whitespace, `trim`, `split(',')`, `split_whitespace`, `join`, `replace` and `filter` on characters |
| `http.dfy` | status codes and response bodies |
| `foreign.dfy` | the kinds of `sqlx::Error` and an opaque `reqwest` error |
| `path_utils.dfy` | `backend/src/pathutils.rs` |
| `notes_handler.dfy` | `backend/src/api/handlers/notes.rs` |
| `search_handler.dfy` | `backend/src/api/handlers/search.rs` |
| `api_errors.dfy` | `backend/src/api/errors.rs` |
| `db_errors.dfy` | `backend/src/db/errors.rs` |
| `course_card.dfy`, `header.dfy`, `upload_modal.dfy`, `auth_context.dfy` | the four frontend files |

Pure Rust code is written as functions, with lemmas about them. The `upload_note` loop is a method with a `while` loop, proved equal to a recursive specification. Each React component is a class:

- its fields are the component's `useState` variables;
- it has one method per handler;
- each method is proved to produce `Step(old(State()), inputs)` for a pure step function;
- the lemmas are stated about those step functions.

Inputs that come from outside are parameters. That covers request outcomes, the database, `Uuid::parse_str`, fresh UUIDs, file-system outcomes, `char::is_alphanumeric` and whether the user is signed in.

## Model

| member | source | states |
|---|---|---|
| PathUtils.PathJoin | backend/src/pathutils.rs:76-94 | `Path::join` on Unix: the result ends with the joined path. An absolute path replaces the base. Otherwise the result starts with the base, and a '/' stands right before the joined path whenever the base is not empty (at most one '/' is added). |
| PathUtils.UrlJoin | backend/src/pathutils.rs:108-110 | `Url::join` for a relative reference: the result is a prefix of the base, ending in '/' (or empty), followed by the reference. The base holds no further '/' after that prefix, so it is the base's last directory. |
| PathUtils.GetNoteSlug | backend/src/pathutils.rs:76-81 | The slug ends with the file name. For a relative file name it starts with the notes slug. |
| PathUtils.GetNotePath | backend/src/pathutils.rs:86-88 | The system path ends with the file name. For a relative file name it starts with the notes directory. |
| PathUtils.GetNotePathFromSlug | backend/src/pathutils.rs:93-95 | The system path ends with the slug. For a relative slug it starts with the static files directory. |
| PathUtils.GetNoteUrlFromSlug | backend/src/pathutils.rs:108-110 | The URL ends with the slug, after a prefix of the static files URL. |
| PathUtils.GetNoteUrl | backend/src/pathutils.rs:100-103 | The URL ends with the note's slug, and so with the file name. |
| PathUtils.PathJoinAssociative | backend/src/pathutils.rs:81-95 | Path joining (Unix `PathBuf::push`) is associative, so joining step by step and joining a pre-joined suffix agree. |
| PathUtils.Default | backend/src/pathutils.rs:28-38 | The default paths keep the notes directory equal to the static-files root joined with the notes slug. The default URL ends in '/'. |
| PathUtils.NotePathViaSlug | backend/src/pathutils.rs:86-95 | `get_note_path_from_slug(get_note_slug(f)) == get_note_path(f)`. This holds whenever the notes directory is the static root joined with the slug, as `Default` and `new` build it. |
| PathUtils.NoteUrlIsBaseThenSlug | backend/src/pathutils.rs:100-110 | When the static-files URL ends in '/', `get_note_url(f)` is that URL followed by `get_note_slug(f)`, which is `get_note_url_from_slug` of the slug. |
| PathUtils.DefaultSlugAndUrl | backend/src/pathutils.rs:144-154 | With the defaults, "test.pdf" has slug "notes/uploaded/test.pdf" and URL "http://localhost:8081/notes/uploaded/test.pdf". |
| PathUtils.FilteredWords | backend/src/pathutils.rs:126-132 | One filtered word per input word, made of name characters only. |
| PathUtils.FilteredWordsKeepNameChars | backend/src/pathutils.rs:126-132 | Each filtered word keeps every name character of its input word (alphanumeric, '-', '_', '.'), as often as it occurs there, and no other character. |
| Strings.FilterCounts | backend/src/pathutils.rs:127-131 | `chars().filter(..).collect()` drops no kept character: each occurs in the result as often as in the input, and every other character not at all. |
| Strings.FilterConcat | backend/src/pathutils.rs:127-131 | Filtering a concatenation is concatenating the filtered parts, so the kept characters stay in their order. |
| PathUtils.SanitizeFilename | backend/src/pathutils.rs:121-134 | Every output character is alphanumeric, '_', '.' or '-'. |
| PathUtils.SanitizeNoSlashOrWhitespace | backend/src/pathutils.rs:123-134 | The output never holds '/' or whitespace. |
| PathUtils.SanitizeHyphens | backend/src/pathutils.rs:125-134 | Splitting the output on '-' gives back the filtered words, empty ones included. So it has (#words − 1) hyphens, and no words give "". |
| PathUtils.SanitizeBlank | backend/src/pathutils.rs:123-134 | There are no words exactly when the input is only whitespace, '/' and '-' (the empty input included), and with no words the output is "". Other inputs can still give "" when every word filters to empty ("@"). |
| PathUtils.SanitizeCsItVector | backend/src/pathutils.rs:158 | "CS/IT 101 - Final Exam.pdf" becomes "CS-IT-101-Final-Exam.pdf". |
| PathUtils.SanitizeMathVector | backend/src/pathutils.rs:159 | "Math@#$%^&*()_notes.pdf" becomes "Math_notes.pdf". |
| PathUtils.SanitizeSpacedVector | backend/src/pathutils.rs:160 | "   spaced   out   .pdf" becomes "spaced-out-.pdf". |
| PathUtils.SanitizeKeepsEmptiedWords | backend/src/pathutils.rs:117-134 | As written, "a @ b" becomes "a--b": a word the filter empties still gets its hyphens. |
| PathUtils.SanitizeCollapsedHasSingleHyphens | backend/src/pathutils.rs:117-118 | The corrected sanitiser never starts or ends with '-' and never holds "--". Where no word is emptied it agrees with the code as written. |
| PathUtils.SanitizeCollapsedVector | backend/src/pathutils.rs:117-118 | The corrected sanitiser turns "a @ b" into "a-b". |
| Strings.TrimProperties | backend/src/api/handlers/notes.rs:110-115 | `trim` result: no longer than its input; does not start or end with whitespace; empty exactly when the input is all whitespace; the input itself when the input's ends are not whitespace. |
| Strings.TrimIdempotent | frontend/src/components/UploadModal.tsx:95-107 | Trimming twice is trimming once. |
| Strings.JoinSplit | backend/src/api/handlers/notes.rs:110 | Joining the pieces of `split(c)` with `c` gives the input back. |
| Strings.SplitJoin | backend/src/api/handlers/notes.rs:110 | Splitting on `c` a join of one or more pieces free of `c` gives those pieces back. |
| NotesHandler.SearchNotes | backend/src/api/handlers/notes.rs:30-46 | An empty query is InvalidQuery "Query cannot be empty", and only an empty query is. Otherwise the database's notes are returned, or its error is wrapped as Unknown "Failed to fetch notes". |
| NotesHandler.EmptyQueryIgnoresDatabase | backend/src/api/handlers/notes.rs:34-38 | The empty query gets the same answer whatever the database would say: the database is not consulted. |
| NotesHandler.FileName | backend/src/api/handlers/notes.rs:77-81 | `Path::file_name`: when present, a non-empty last component other than "." or "..", without '/'. |
| NotesHandler.Extension | backend/src/api/handlers/notes.rs:77-81 | `Path::extension`: when present, the text after the file name's last '.', where that '.' is not the name's first character. When absent, the name has no such '.'. |
| NotesHandler.StoredName | backend/src/api/handlers/notes.rs:77-83 | The stored name is the fresh UUID, a '.', and then exactly the extension of the uploaded name, read as "unknown_file" when the field has none; that text is "" when the name has no extension. |
| NotesHandler.StoredNameKeepsExtension | backend/src/api/handlers/notes.rs:77-83 | An uploaded "stem.ext" is stored as "<uuid>.ext". |
| NotesHandler.StoredNameWithoutExtension | backend/src/api/handlers/notes.rs:77-83 | An uploaded name without a '.' is stored as "<uuid>.". |
| NotesHandler.StoredPath | backend/src/api/handlers/notes.rs:83 | The file is written under its stored name, inside "uploads/" when that name is relative. |
| NotesHandler.StoredPathShape | backend/src/api/handlers/notes.rs:83-84 | A file is written to "uploads/" followed by its stored name. |
| NotesHandler.PlainNameHasNoExtension | backend/src/api/handlers/notes.rs:77-81 | A name without '/' or '.' is its own file name and has no extension. |
| NotesHandler.ExtensionAfterLastDot | backend/src/api/handlers/notes.rs:77-81 | "stem.ext" has extension "ext" when "ext" holds no '.'. |
| NotesHandler.HiddenNameHasNoExtension | backend/src/api/handlers/notes.rs:77-81 | ".rest" with no other '.' has no extension. |
| NotesHandler.UnnamedFileHasEmptyExtension | backend/src/api/handlers/notes.rs:77-84 | A file field without a file name is stored as "<uuid>.", with an empty extension. |
| NotesHandler.SplitList | backend/src/api/handlers/notes.rs:109-115 | A list field gives (#commas + 1) pieces, empty ones kept. Each piece is free of ',' and neither starts nor ends with whitespace. |
| NotesHandler.SplitListJoin | backend/src/api/handlers/notes.rs:109-115 | When no comma-separated piece has surrounding whitespace, joining the list with ',' gives the field back. |
| NotesHandler.Absorb | backend/src/api/handlers/notes.rs:71-117 | One pass of the loop body, which changes only the local its field name sets. A nameless field, or a readable field with an unknown name, changes nothing. Every failure is a FileError: the file's read or write, or a named field whose text cannot be read. |
| NotesHandler.Store | backend/src/api/handlers/notes.rs:104-116 | A text field sets the local of its name (the three lists split on ',' and trimmed) and nothing else; an unknown name changes nothing. |
| NotesHandler.GatherFrom | backend/src/api/handlers/notes.rs:70-118 | The field loop fails only with a file error. |
| NotesHandler.ReadErrorEndsLoop | backend/src/api/handlers/notes.rs:70 | A multipart read error ends the loop silently. Nothing after it is looked at. |
| NotesHandler.IgnoredFieldSkipped | backend/src/api/handlers/notes.rs:70-116 | Nameless fields and unknown names are skipped. |
| NotesHandler.GatherConcat | backend/src/api/handlers/notes.rs:70-118 | Without read errors, running the loop over a + b is running it over a and then over b from where a left off. |
| NotesHandler.LastTextSnoc | backend/src/api/handlers/notes.rs:105-107 | The last text of a name after one more field: that field's text if it has the name, else the earlier last text. |
| NotesHandler.LastFileSnoc | backend/src/api/handlers/notes.rs:76-97 | The last "file" field after one more field. |
| NotesHandler.LastFieldStep | backend/src/api/handlers/notes.rs:104-117 | One more successful loop pass keeps each gathered local equal to the last occurrence of its field. |
| NotesHandler.LastListsStep | backend/src/api/handlers/notes.rs:109-115 | The same, for the three list fields. |
| NotesHandler.GatherTakesLast | backend/src/api/handlers/notes.rs:70-118 | For any stream without read errors that the loop completes, each local holds the value of the LAST field of its name: title, description, uploader_id, the lists and the file. |
| NotesHandler.Validate | backend/src/api/handlers/notes.rs:120-139 | The post-loop checks, in order: empty title gives "Title is required"; otherwise an unparsable uploader_id gives "Invalid or missing uploader_id"; otherwise no file gives "File not provided". Otherwise the CreateNote carries exactly the gathered values. |
| NotesHandler.DatabaseOnlyAfterValidation | backend/src/api/handlers/notes.rs:63-146 | When the directory cannot be created or the loop fails, the result does not depend on the database: `create_note` is never reached. |
| NotesHandler.NoTitleRefused | backend/src/api/handlers/notes.rs:105-122 | A stream whose last title is empty or missing is refused with "Title is required". |
| NotesHandler.UploadOutcome | backend/src/api/handlers/notes.rs:51-147 | A failed directory creation is `DirectoryError("Failed to create upload dir", e)` with the creation error `e`. Once the directory exists, a loop error or a validation error is returned unchanged. A validated note goes to the database: its success is the answer, and its failure `e` becomes `Unknown("Failed to create note", e)`. A success happens only along that path. |
| NotesHandler.UploadNote | backend/src/api/handlers/notes.rs:51-147 | The handler as an imperative `while` loop over the field stream. Its result is the specification `UploadOutcome`. |
| SearchHandler.SearchErrorResponse | backend/src/api/handlers/search.rs:14-21 | NotFound is 404 and InvalidQuery is 400, each with its message as body. |
| SearchHandler.SearchNotes | backend/src/api/handlers/search.rs:28-36 | Empty query: InvalidQuery "Query cannot be empty". "notfound": NotFound "Notes not found". Anything else: 200 with ["Note 1", "Note 2"]. The empty check comes first. |
| SearchHandler.SearchStatuses | backend/src/api/handlers/search.rs:14-36 | 400 exactly for the empty query, 404 exactly for "notfound", 200 exactly otherwise. The error bodies are the messages. |
| ApiErrors.FromUser | backend/src/api/errors.rs:26-30 | A user error converted into an AppError gets exactly the response it would get on its own. |
| ApiErrors.FromNote | backend/src/api/errors.rs:58-62 | A note error converted into an AppError gets exactly the response it would get on its own. |
| ApiErrors.AppErrorResponse | backend/src/api/errors.rs:11-80 | An AppError's response has status 400, 409 or 500, and its body is JSON exactly for note errors. |
| ApiErrors.UserErrorResponse | backend/src/api/errors.rs:32-49 | Conflict is 409 and Unknown/Reqwest are 500. The body is the message. |
| ApiErrors.NoteErrorResponse | backend/src/api/errors.rs:64-80 | InvalidData is 400 and UploadFailed/DatabaseError are 500. The body is the JSON object {"error": msg}. |
| ApiErrors.ResponseCarriesMessage | backend/src/api/errors.rs:11-80 | Every AppError reaches the client with its message intact. The body is JSON exactly for note errors. |
| ApiErrors.StatusClasses | backend/src/api/errors.rs:32-80 | Only 400, 409 and 500 occur. A status below 500 happens exactly for InvalidData and Conflict. |
| DbErrors.FromSqlx | backend/src/db/errors.rs:11-20 | Io/Tls become ConnectionError "Database connection error". RowNotFound becomes NotFound "Resource not found". Database becomes QueryError "Database query error". Every other kind becomes QueryError "An unknown database error occurred". The original error is kept. |
| DbErrors.IntoResponse | backend/src/db/errors.rs:22-39 | ConnectionError is 500, QueryError 400 and NotFound 404. The body is the message. |
| DbErrors.SqlxResponse | backend/src/db/errors.rs:11-39 | A raw sqlx error reaches the client only as one of the four fixed messages, and the message determines the status. |
| CourseCard.Name | frontend/src/components/CourseCard.tsx:39-42 | The name each handler stores is looked up as that same action. |
| CourseCard.ActionNamed | frontend/src/components/CourseCard.tsx:28-37 | A stored name replays an action exactly when it is "download", "like", "dislike" or "edit"; any other name replays nothing. |
| CourseCard.NameRoundTrip | frontend/src/components/CourseCard.tsx:19-42 | A name is replayed as an action exactly when it is the name that action stores. |
| CourseCard.LikeStep | frontend/src/components/CourseCard.tsx:54-64 | Like toggles `isLiked` and moves the count by one in that direction. Giving a like clears a dislike; withdrawing one leaves `isDisliked` as it was. It keeps the vote invariant. |
| CourseCard.DislikeStep | frontend/src/components/CourseCard.tsx:66-77 | Dislike toggles `isDisliked`. Giving a dislike withdraws a like (count − 1); withdrawing one leaves `isLiked` as it was. It never raises the count and keeps the vote invariant. |
| CourseCard.LikeTwice | frontend/src/components/CourseCard.tsx:54-64 | Two likes restore the votes exactly when they were not disliked. |
| CourseCard.ReachableConsistent | frontend/src/components/CourseCard.tsx:54-77 | From a consistent state, any sequence of likes and dislikes keeps "not both" and `likeCount == (isLiked ? 1 : 0)`. |
| CourseCard.InitialConsistent | frontend/src/components/CourseCard.tsx:13-15 | Every vote state reachable from (false, false, 0) is consistent. |
| CourseCard.RunStep | frontend/src/components/CourseCard.tsx:44-81 | Running an action records it and changes neither the modal nor the slot. Download and edit leave the votes alone; like and dislike change them by `LikeStep` and `DislikeStep`. |
| CourseCard.RequireAuthStep | frontend/src/components/CourseCard.tsx:19-26 | Signed out: the action's name is stored, the modal opened, and no action runs and no vote changes. Signed in: the action runs at once. |
| CourseCard.SignInSuccessStep | frontend/src/components/CourseCard.tsx:28-37 | The modal is closed and the slot cleared. The action the stored name denotes runs once, with the vote effect it has when run directly, and when the name denotes none, nothing runs and no vote changes. |
| CourseCard.CancelStep | frontend/src/components/CourseCard.tsx:170-173 | The modal is closed and the slot cleared; nothing runs and no vote changes. |
| CourseCard.GatedThenSignedIn | frontend/src/components/CourseCard.tsx:19-37 | Signed out, a gated action followed by sign-in success runs that action exactly once, closes the modal and clears the slot. |
| CourseCard.GatedThenCancelled | frontend/src/components/CourseCard.tsx:19-24 | Signed out, a gated action followed by cancel runs nothing and changes no vote. |
| CourseCard.LastRequestWins | frontend/src/components/CourseCard.tsx:21-37 | Two gated requests before sign-in: only the second runs. |
| CourseCard.SignInWithoutKnownAction | frontend/src/components/CourseCard.tsx:28-37 | With no slot, or a name that is no action, sign-in success only closes the modal and clears the slot. |
| CourseCard.StepsKeepVotesConsistent | frontend/src/components/CourseCard.tsx:19-37 | Gating, sign-in success and cancel all keep the votes consistent. |
| CourseCard.Component.constructor | frontend/src/components/CourseCard.tsx:11-15 | Modal closed, no slot, not liked, not disliked, zero likes. |
| CourseCard.Component.HandleLikeAction | frontend/src/components/CourseCard.tsx:54-64 | The state after the handler is `RunStep(old, Like)`. |
| CourseCard.Component.HandleDislikeAction | frontend/src/components/CourseCard.tsx:66-77 | The state after the handler is `RunStep(old, Dislike)`. |
| CourseCard.Component.HandleDownloadAction | frontend/src/components/CourseCard.tsx:44-52 | Only the action trace changes. |
| CourseCard.Component.HandleEditAction | frontend/src/components/CourseCard.tsx:79-81 | Only the action trace changes. |
| CourseCard.Component.Perform | frontend/src/components/CourseCard.tsx:39-42 | Running an action through its handler gives `RunStep(old, a)`. |
| CourseCard.Component.RequireAuth | frontend/src/components/CourseCard.tsx:19-26 | Signed out: the action's name is stored and the modal opened. Signed in: the action runs. |
| CourseCard.Component.HandleSignInSuccess | frontend/src/components/CourseCard.tsx:28-37 | Close the modal, replay the named action, clear the slot. |
| CourseCard.Component.Cancel | frontend/src/components/CourseCard.tsx:170-173 | Close the modal and clear the slot. |
| Header.SignedOutClickAsksForSignIn | frontend/src/components/Header.tsx:18-22 | Signed out, the upload click shows the sign-in modal and leaves the upload modal as it was. |
| Header.SignInResumesUpload | frontend/src/components/Header.tsx:18-29 | A signed-out click followed by sign-in success ends where a signed-in click does, with the upload modal open. |
| Header.CancelUndoesClick | frontend/src/components/Header.tsx:18-22 | A signed-out click followed by cancel restores the modals. |
| Header.UploadThenCloseIsClosed | frontend/src/components/Header.tsx:18-29 | Opening the upload modal either way and closing it leaves both modals closed. |
| Header.ForwardedInOrder | frontend/src/components/Header.tsx:31-36 | Over any series of uploads: with `onNoteUploaded` given, every uploaded note reaches the parent once, in upload order; without it, nothing does. |
| Header.UploadClickStep | frontend/src/components/Header.tsx:18-24 | Signed out: the sign-in modal opens and the upload modal is left as it was. Signed in: the upload modal opens and the sign-in modal is left as it was. |
| Header.SignInSuccessStep | frontend/src/components/Header.tsx:26-29 | After sign-in the upload modal is open and the sign-in modal closed. |
| Header.CancelStep | frontend/src/components/Header.tsx:93 | Cancel closes the sign-in modal and leaves the upload modal as it was. |
| Header.UploadCloseStep | frontend/src/components/Header.tsx:109 | Closing the upload modal leaves the sign-in modal as it was. |
| Header.Component.constructor | frontend/src/components/Header.tsx:15-16 | Both modals closed, nothing forwarded. |
| Header.Component.HandleUploadClick | frontend/src/components/Header.tsx:18-24 | Signed out: show the sign-in modal. Signed in: open the upload modal. |
| Header.Component.HandleSignInSuccess | frontend/src/components/Header.tsx:26-29 | Close the sign-in modal and open the upload modal. |
| Header.Component.Cancel | frontend/src/components/Header.tsx:93 | Close the sign-in modal. |
| Header.Component.CloseUploadModal | frontend/src/components/Header.tsx:109 | Close the upload modal. |
| Header.Component.HandleUploadSuccess | frontend/src/components/Header.tsx:31-36 | The modals stay as they are, and the note is forwarded when the callback exists. |
| UploadModal.WithField | frontend/src/components/UploadModal.tsx:35-36 | The named field takes the value. Every other field and the file are unchanged. |
| UploadModal.Validate | frontend/src/components/UploadModal.tsx:69-83 | The form passes exactly when the trimmed name and code are non-empty and a file is chosen. Otherwise the first failing check, in the order name, code, file, gives its message. |
| UploadModal.HasKeyConcat | frontend/src/components/UploadModal.tsx:94-110 | A key is among the entries of a + b exactly when it is among those of a or of b. |
| UploadModal.UploadEntries | frontend/src/components/UploadModal.tsx:94-110 | Three to six entries: the trimmed course name and code come first, in that order, and the file comes last. |
| UploadModal.HasOptionalKey | frontend/src/components/UploadModal.tsx:98-108 | An optional key is sent exactly when that field's trimmed value is non-empty. |
| UploadModal.UploadEntriesOptional | frontend/src/components/UploadModal.tsx:98-108 | description, professor_names and tags are sent exactly when non-blank. |
| UploadModal.UploadEntriesTrimmed | frontend/src/components/UploadModal.tsx:94-108 | Every text sent is already trimmed. |
| UploadModal.FileChangeStep | frontend/src/components/UploadModal.tsx:40-47 | A file that is not a PDF only sets 'Only PDF files are supported'. A PDF or no file is stored and clears the error. Either way every text field, the upload flag, the drop zone, what was sent and the callbacks stay. |
| UploadModal.DropStep | frontend/src/components/UploadModal.tsx:59-67 | A drop always deactivates the drop zone. The first dropped file, if any, goes through `FileChangeStep`; with no file nothing else changes. |
| UploadModal.DragStep | frontend/src/components/UploadModal.tsx:49-57 | Enter and over activate the zone, leave deactivates it, other events change nothing, and nothing but the zone ever changes. |
| UploadModal.SettleStep | frontend/src/components/UploadModal.tsx:112-129 | The upload is over either way. Success empties the form and calls onSuccess(note) then onClose. Failure keeps the form, calls nothing, and shows the Error's message or 'Upload failed. Please try again.'. |
| UploadModal.SendStep | frontend/src/components/UploadModal.tsx:90-129 | The form's entries are sent once, the upload ends, and the error is cleared exactly when the request succeeded. |
| UploadModal.SubmitStep | frontend/src/components/UploadModal.tsx:85-130 | An invalid form sends nothing, calls nothing and keeps the form. A valid one is sent once and the upload ends. The error is clear afterwards exactly when the form was valid and the upload succeeded. |
| UploadModal.ResetAndCloseStep | frontend/src/components/UploadModal.tsx:132-143 | The form is emptied, the error cleared and onClose called; nothing is sent. |
| UploadModal.InvalidNeverUploads | frontend/src/components/UploadModal.tsx:69-88 | An invalid form is never sent: only the validation message changes. |
| UploadModal.SuccessfulSubmit | frontend/src/components/UploadModal.tsx:85-129 | Success sends the entries, calls onSuccess(note) then onClose, and empties the form. The error is cleared and the upload is over. |
| UploadModal.FailedSubmit | frontend/src/components/UploadModal.tsx:85-129 | Failure keeps the form and calls nothing. It shows the Error's message or 'Upload failed. Please try again.', and the upload is over. |
| UploadModal.ClosedFormsAreEmpty | frontend/src/components/UploadModal.tsx:116-143 | Success and resetAndClose leave the same empty form, which fails validation on the course name. |
| UploadModal.HandlersKeepPdf | frontend/src/components/UploadModal.tsx:35-143 | Every handler keeps the stored file a PDF, so every file sent is one. |
| UploadModal.InputChangeStep | frontend/src/components/UploadModal.tsx:35-38 | Typing changes that field alone and clears the error; the file, the upload flag, the drop zone, what was sent and the callbacks stay. |
| UploadModal.AppendOptional | frontend/src/components/UploadModal.tsx:98-108 | Appends an optional entry, trimmed and only when non-blank. |
| UploadModal.Assemble | frontend/src/components/UploadModal.tsx:94-110 | The `FormData` built step by step is `UploadEntries(form)`. |
| UploadModal.Component.constructor | frontend/src/components/UploadModal.tsx:23-33 | Empty form, not uploading, no error, drop zone inactive. |
| UploadModal.Component.HandleInputChange | frontend/src/components/UploadModal.tsx:35-38 | The state after the handler is `InputChangeStep`. |
| UploadModal.Component.HandleFileChange | frontend/src/components/UploadModal.tsx:40-47 | The state after the handler is `FileChangeStep`. |
| UploadModal.Component.HandleDrag | frontend/src/components/UploadModal.tsx:49-57 | Enter and over activate the zone, leave deactivates it, and other events change nothing. |
| UploadModal.Component.HandleDrop | frontend/src/components/UploadModal.tsx:59-67 | The zone is deactivated and the first dropped file goes through the file handler. |
| UploadModal.Component.ValidateForm | frontend/src/components/UploadModal.tsx:69-83 | Returns true exactly when `Validate` finds nothing missing. Otherwise only the error changes, to the first failing check's message. |
| UploadModal.Component.Settle | frontend/src/components/UploadModal.tsx:112-129 | The state after the request settles is `SettleStep`. |
| UploadModal.Component.Send | frontend/src/components/UploadModal.tsx:90-129 | The state after sending is `SendStep`. |
| UploadModal.Component.HandleSubmit | frontend/src/components/UploadModal.tsx:85-130 | The state after submit is `SubmitStep`. |
| UploadModal.Component.ResetAndClose | frontend/src/components/UploadModal.tsx:132-143 | The state after the handler is `ResetAndCloseStep`. |
| AuthContext.CheckStep | frontend/src/contexts/AuthContext.tsx:205-236 | Loading ends, no storage key but the token changes, and a user is signed in only from an ok response, with a token stored. |
| AuthContext.CredentialStep | frontend/src/contexts/AuthContext.tsx:161-203 | No storage key but the token changes. With a credential, loading ends and the user is signed in exactly when the exchange is accepted, with a token stored. |
| AuthContext.SignOutStep | frontend/src/contexts/AuthContext.tsx:244-259 | Nobody is signed in, the token is gone, loading is untouched and no other key changes. |
| AuthContext.CheckEndsLoading | frontend/src/contexts/AuthContext.tsx:205-236 | Every path of `checkAuthStatus` ends with loading false. |
| AuthContext.CheckWithoutToken | frontend/src/contexts/AuthContext.tsx:207-212 | Without a token, the user is null, storage is unchanged, and the request outcome does not matter. |
| AuthContext.CheckWithToken | frontend/src/contexts/AuthContext.tsx:214-233 | With a token: an ok response signs in the returned user and keeps the token. Not ok or an exception removes the token and signs nobody in. |
| AuthContext.NoCredentialNoChange | frontend/src/contexts/AuthContext.tsx:162-165 | A missing or empty credential changes nothing. |
| AuthContext.CredentialOutcomes | frontend/src/contexts/AuthContext.tsx:166-202 | Signed in exactly when the exchange is accepted (ok, with a token and a user), and then the token is stored. Otherwise the token is removed. Loading ends either way. |
| AuthContext.SignOutAlwaysSignsOut | frontend/src/contexts/AuthContext.tsx:244-259 | Sign-out removes the token and the user, whether or not the Google call throws. It is idempotent. |
| AuthContext.SignInResult | frontend/src/contexts/AuthContext.tsx:239-242 | `signIn` always rejects. |
| AuthContext.HandlersKeepCoherent | frontend/src/contexts/AuthContext.tsx:161-259 | Each handler keeps "a signed-in user has a non-empty token stored". |
| AuthContext.RunKeepsSession | frontend/src/contexts/AuthContext.tsx:161-259 | Over any sequence of completed checks, credentials and sign-outs: a signed-in user always has a token, and no other key changes. |
| AuthContext.MountedIsCoherent | frontend/src/contexts/AuthContext.tsx:161-259 | From mounting on (no user, loading), over any sequence of completed checks, credentials and sign-outs, a signed-in user always has a token and no other key changes. |
| AuthContext.Provider.constructor | frontend/src/contexts/AuthContext.tsx:40-41 | No user, loading, the given storage. |
| AuthContext.Provider.CheckAuthStatus | frontend/src/contexts/AuthContext.tsx:205-237 | The state after the handler is `CheckStep`. |
| AuthContext.Provider.HandleCredentialResponse | frontend/src/contexts/AuthContext.tsx:161-203 | The state after the handler is `CredentialStep`. |
| AuthContext.Provider.SignOut | frontend/src/contexts/AuthContext.tsx:244-259 | The state after the handler is `SignOutStep`. |
| AuthContext.Provider.SignIn | frontend/src/contexts/AuthContext.tsx:239-242 | Rejects with "Please use the Google Sign-In button to authenticate" and changes nothing. |

## Left out

- Logging (`tracing::error!`, `console.log`/`console.error`) is not modelled; it has no effect on state or responses.
- The Google Identity Services script (loading, initialisation, One Tap, button rendering, `googleInitialized`, `disableAutoSelect`) is browser I/O and DOM work outside the state model. This covers frontend/src/contexts/AuthContext.tsx:47-159. `SignOutStep` keeps only whether the Google call throws.
- Token verification, SQL, the pool, routing, startup and the vote code (commented out in the repository) are not part of this model.
- `Paths::new` and `get_notes_dir` are not modelled: they do file-system work (absolute paths, `create_dir_all`) and parse URLs. The laws are stated for any `Paths` whose notes directory is the static root joined with the slug, which is how `new` builds it.
- PathUtils.UrlJoin: `Url::join` (WHATWG URL resolution) is modelled only for relative path references without '.', '..', '?', '#' or a scheme: the base up to its last '/', then the reference. The getters accept any string, so the model does not capture:
  - absolute references: with a notes slug such as "/notes/uploaded", `Url::join` replaces the base's whole path, while UrlJoin keeps the base's path and gives "https://static.metakgp.org//notes/uploaded/123.pdf";
  - percent-encoding of spaces and of the non-ASCII alphanumerics that `sanitize_filename` keeps;
  - the error `get_note_url` can return.
- PathUtils.NoteUrlIsBaseThenSlug and PathUtils.DefaultSlugAndUrl hold for the model's UrlJoin; for the relative slugs of the defaults they agree with `Url::join`.
- PathUtils.SanitizeFilename: `char::is_alphanumeric` (Unicode) is a parameter. The charset, separator and hyphen lemmas hold for any such predicate. The test vectors assume only that it agrees with ASCII on ASCII characters.
- `list_notes` (backend/src/api/handlers/notes.rs:15-22) is a bare database call with no logic of its own, and is not modelled.
- NotesHandler.UploadNote: `Uuid::new_v4`, `Uuid::parse_str`, the existence check of "uploads", `create_dir` and each field's byte read and file write are inputs. Each multipart field carries the outcome of its own reads and writes, and `create_dir`'s error is kept as text.
- The NoteError variants used in notes.rs (InvalidQuery, Unknown, DirectoryError, FileError) and `AppError::Search` in search.rs are not defined in backend/src/api/errors.rs. Each handler's errors are modelled as that file uses them, not reconciled.
- `sqlx::Error` keeps all eighteen of its variants, but each one's payload (an I/O error, a database error object, a boxed source) is reduced to descriptive text or left out; the classification looks only at the variant.
- Frontend asynchrony: the `await` points, React's batching of `setState` and the interleaving of concurrent handlers are not modelled. Each handler runs to completion as one step. The intermediate `isLoading = true` in `handleCredentialResponse` and `isUploading = true` in `handleSubmit` appear only inside the step. Stale closures are not modelled.
- AuthContext.RunKeepsSession: holds only for handlers that each run to completion. In the real code a sign-out can run while `checkAuthStatus` awaits `/api/auth/me` (AuthContext.tsx:207-223). The token is then removed, and the late `setUser` still signs the user in with no token stored. That interleaving is not modelled.
- Callbacks that throw (`onSuccess`, `onClose`, `onNoteUploaded`) are not modelled. Inside `handleSubmit`'s `try`, a throwing `onSuccess` would take the failure branch.
- JSON bodies are typed: a missing or null `user` is `None`, and a body that is not JSON is an exception outcome. The `/api/auth/me` body is the user or null.
- CourseCard: the download request and the edit log line are outside the component. The model records each action that runs, in order, as a trace.
- The React markup (modals, buttons, the drop zone's appearance) is presentation and is not modelled.

## Findings

| source | as written | input that shows it | evidently intended | confidence | as-written member | corrected member |
|---|---|---|---|---|---|---|
| backend/src/pathutils.rs:117-134 | `sanitize_filename` joins every filtered word with '-', including words the filter empties, although its doc comment says the output has no repeated hyphens | "a @ b" gives "a--b" | words that filter to empty are dropped before joining, giving "a-b" | not executed; medium (the doc comment promises it, the tests do not exercise it) | PathUtils.SanitizeKeepsEmptiedWords | PathUtils.SanitizeCollapsedHasSingleHyphens |
