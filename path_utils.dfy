/**
 * `Paths` in backend/src/pathutils.rs: where an uploaded note lives as a slug (a path relative
 * to the static-files root, stored in the database), as a system path and as a URL, and the
 * sanitising of file names.
 *
 * `Path::join` is modelled with its Unix semantics; `Url::join` is modelled for the relative
 * path references the getters produce; `char::is_alphanumeric` (Unicode) is a parameter.
 */
module PathUtils {
  import opened Strings

  datatype Paths = Paths(
    staticFilesUrl: string,     // serialised URL of the static files server
    staticFilesPath: string,    // directory the static files server serves from
    notesSystemPath: string,    // directory holding the uploaded notes
    notesPathSlug: string)      // the notes directory relative to the static files root

  /** `Path::join` on Unix (`PathBuf::push`): an absolute right side replaces the left side;
      otherwise a '/' goes between them unless the left side is empty or already ends in '/'. */
  function PathJoin(base: string, rel: string): (r: string)
    ensures EndsWith(r, rel)
    ensures IsAbsolute(rel) ==> r == rel
    ensures !IsAbsolute(rel) ==> StartsWith(r, base) && |base| + |rel| <= |r| <= |base| + 1 + |rel|
    ensures !IsAbsolute(rel) && base != [] ==> r[|r| - |rel| - 1] == '/'
  {
    if rel != [] && rel[0] == '/' then rel else base + JoinSeparator(base) + rel
  }

  predicate IsAbsolute(path: string) {
    path != [] && path[0] == '/'
  }

  predicate StartsWith(s: string, prefix: string) {
    |prefix| <= |s| && s[..|prefix|] == prefix
  }

  predicate EndsWith(s: string, suffix: string) {
    |suffix| <= |s| && s[|s| - |suffix|..] == suffix
  }

  /** What `PathJoin` puts between a base and a relative path. */
  function JoinSeparator(base: string): string {
    if base == [] || base[|base| - 1] == '/' then "" else "/"
  }

  /** Joining is associative, whatever the three paths are. */
  lemma PathJoinAssociative(a: string, b: string, c: string)
    ensures PathJoin(PathJoin(a, b), c) == PathJoin(a, PathJoin(b, c))
  {
    if c != [] && c[0] == '/' {
    } else if b != [] && b[0] == '/' {
      assert PathJoin(b, c)[0] == '/';
    } else if b == [] {
      PathJoinEmptyMiddle(a, c);
    } else {
      PathJoinAssociativeRelative(a, b, c);
    }
  }

  /** The case where `b` is empty and `c` is not absolute. */
  lemma PathJoinEmptyMiddle(a: string, c: string)
    requires c == [] || c[0] != '/'
    ensures PathJoin(PathJoin(a, ""), c) == PathJoin(a, PathJoin("", c))
  {
    var sep := JoinSeparator(a);
    var l := a + sep;
    assert PathJoin(a, "") == l by {
      assert a + sep + "" == l;
    }
    assert JoinSeparator(l) == "" by {
      if sep == "/" {
        assert l[|l| - 1] == '/';
      }
    }
    assert PathJoin(l, c) == l + c by {
      assert l + "" + c == l + c;
    }
    assert PathJoin("", c) == c by {
      assert "" + "" + c == c;
    }
  }

  /** The case where neither `b` nor `c` is absolute and `b` is not empty. */
  lemma PathJoinAssociativeRelative(a: string, b: string, c: string)
    requires b != [] && b[0] != '/'
    requires c == [] || c[0] != '/'
    ensures PathJoin(PathJoin(a, b), c) == PathJoin(a, PathJoin(b, c))
  {
    var ab := a + JoinSeparator(a) + b;
    var bc := b + JoinSeparator(b) + c;
    assert ab[|ab| - 1] == b[|b| - 1];
    assert JoinSeparator(ab) == JoinSeparator(b);
    assert bc[0] == b[0];
    assert ab + JoinSeparator(b) + c == a + JoinSeparator(a) + bc;
  }

  /** `Url::join` for a relative path reference: the base's path loses its last segment and
      the reference takes its place. */
  function UrlJoin(base: string, rel: string): (r: string)
    ensures EndsWith(r, rel)
    ensures var dir := r[..|r| - |rel|];
      StartsWith(base, dir) && (dir == [] || dir[|dir| - 1] == '/') && '/' !in base[|dir|..]
  {
    base[..AfterLast(base, '/')] + rel
  }

  /** The notes directory is the notes slug under the static files directory, as both `Default`
      and `new` build it. */
  predicate Consistent(p: Paths) {
    p.notesSystemPath == PathJoin(p.staticFilesPath, p.notesPathSlug)
  }

  /** `Paths::default()`; the URL is kept as `Url::parse` serialises it, with its "/" path. */
  function Default(): (p: Paths)
    ensures Consistent(p)
    ensures p.staticFilesUrl != [] && p.staticFilesUrl[|p.staticFilesUrl| - 1] == '/'
  {
    DefaultJoin("./static_files", "notes/uploaded", "./static_files/notes/uploaded");
    Paths("http://localhost:8081/", "./static_files", "./static_files/notes/uploaded", "notes/uploaded")
  }

  lemma DefaultJoin(root: string, slug: string, notes: string)
    requires root == "./static_files" && slug == "notes/uploaded" && notes == "./static_files/notes/uploaded"
    ensures PathJoin(root, slug) == notes
  {
    assert JoinSeparator(root) == "/";
    assert root + "/" + slug == notes;
  }

  /** A note's slug: the file name under the notes slug. */
  function GetNoteSlug(p: Paths, filename: string): (r: string)
    ensures EndsWith(r, filename)
    ensures !IsAbsolute(filename) ==> StartsWith(r, p.notesPathSlug)
  {
    PathJoin(p.notesPathSlug, filename)
  }

  /** A note's system path: the file name under the notes directory. */
  function GetNotePath(p: Paths, filename: string): (r: string)
    ensures EndsWith(r, filename)
    ensures !IsAbsolute(filename) ==> StartsWith(r, p.notesSystemPath)
  {
    PathJoin(p.notesSystemPath, filename)
  }

  /** The system path of a slug: the slug under the static files directory. */
  function GetNotePathFromSlug(p: Paths, slug: string): (r: string)
    ensures EndsWith(r, slug)
    ensures !IsAbsolute(slug) ==> StartsWith(r, p.staticFilesPath)
  {
    PathJoin(p.staticFilesPath, slug)
  }

  /** The URL of a slug: the slug resolved against the static files URL. */
  function GetNoteUrlFromSlug(p: Paths, slug: string): (r: string)
    ensures EndsWith(r, slug) && StartsWith(p.staticFilesUrl, r[..|r| - |slug|])
  {
    UrlJoin(p.staticFilesUrl, slug)
  }

  /** A note's URL: the URL of its slug, which ends with the file name. */
  function GetNoteUrl(p: Paths, filename: string): (r: string)
    ensures EndsWith(r, GetNoteSlug(p, filename)) && EndsWith(r, filename)
  {
    GetNoteUrlFromSlug(p, GetNoteSlug(p, filename))
  }

  /** The system path reached through the slug is the direct system path. */
  lemma NotePathViaSlug(p: Paths, filename: string)
    requires Consistent(p)
    ensures GetNotePathFromSlug(p, GetNoteSlug(p, filename)) == GetNotePath(p, filename)
  {
    PathJoinAssociative(p.staticFilesPath, p.notesPathSlug, filename);
  }

  /** Under a base URL whose path ends in '/', a note's URL is the base followed by its slug. */
  lemma NoteUrlIsBaseThenSlug(p: Paths, filename: string)
    requires p.staticFilesUrl != [] && p.staticFilesUrl[|p.staticFilesUrl| - 1] == '/'
    ensures GetNoteUrl(p, filename) == p.staticFilesUrl + GetNoteSlug(p, filename)
  {
    assert p.staticFilesUrl[..|p.staticFilesUrl|] == p.staticFilesUrl;
  }

  /** The slug and URL of "test.pdf" under the default paths. */
  lemma DefaultSlugAndUrl()
    ensures GetNoteSlug(Default(), "test.pdf") == "notes/uploaded/test.pdf"
    ensures GetNoteUrl(Default(), "test.pdf") == "http://localhost:8081/notes/uploaded/test.pdf"
  {
    var p := Default();
    DefaultSlug(p, "test.pdf");
    DefaultUrl(p, "test.pdf");
  }

  lemma DefaultSlug(p: Paths, f: string)
    requires p == Default() && f == "test.pdf"
    ensures GetNoteSlug(p, f) == "notes/uploaded/test.pdf"
  {
    assert JoinSeparator(p.notesPathSlug) == "/";
  }

  lemma DefaultUrl(p: Paths, f: string)
    requires p == Default() && f == "test.pdf"
    ensures GetNoteUrl(p, f) == "http://localhost:8081/notes/uploaded/test.pdf"
  {
    DefaultSlug(p, f);
    NoteUrlIsBaseThenSlug(p, f);
    DefaultUrlText(p.staticFilesUrl, GetNoteSlug(p, f));
  }

  lemma DefaultUrlText(base: string, slug: string)
    requires base == "http://localhost:8081/" && slug == "notes/uploaded/test.pdf"
    ensures base + slug == "http://localhost:8081/notes/uploaded/test.pdf"
  {
  }

  // ---------------------------------------------------------------------------------------
  // sanitize_filename

  /** A character `sanitize_filename` keeps inside a word. */
  predicate KeptInName(isAlnum: char -> bool, c: char) {
    isAlnum(c) || c == '-' || c == '_' || c == '.'
  }

  /** '/' first becomes '-', then every '-' becomes a space. */
  function SeparatorsToSpaces(s: string): string {
    ReplaceChar(ReplaceChar(s, '/', '-'), '-', ' ')
  }

  /** The whitespace-separated words of the name after separators became spaces. */
  function NameWords(s: string): seq<string> {
    SplitWhitespace(SeparatorsToSpaces(s))
  }

  function KeepNameChars(isAlnum: char -> bool, word: string): string {
    Filter(c => KeptInName(isAlnum, c), word)
  }

  /** One word out per word in, made of name characters only. */
  function FilteredWords(isAlnum: char -> bool, words: seq<string>): (r: seq<string>)
    ensures |r| == |words|
    ensures forall i :: 0 <= i < |r| ==> All(r[i], c => KeptInName(isAlnum, c))
  {
    seq(|words|, i requires 0 <= i < |words| => KeepNameChars(isAlnum, words[i]))
  }

  /** Each filtered word keeps every name character of its word, as often as it occurs there,
      and nothing else. */
  lemma FilteredWordsKeepNameChars(isAlnum: char -> bool, words: seq<string>)
    ensures var r := FilteredWords(isAlnum, words);
      forall i, c :: 0 <= i < |r| ==>
        multiset(r[i])[c] == if KeptInName(isAlnum, c) then multiset(words[i])[c] else 0
  {
    var r := FilteredWords(isAlnum, words);
    forall i, c | 0 <= i < |r|
      ensures multiset(r[i])[c] == if KeptInName(isAlnum, c) then multiset(words[i])[c] else 0
    {
      FilterCounts(c => KeptInName(isAlnum, c), words[i]);
    }
  }

  /** `Paths::sanitize_filename`: separators become spaces, the text is split on whitespace,
      each word keeps only its alphanumeric characters, '-', '_' and '.', and the words are
      joined with '-'. A word left empty by the filter is still joined. Every output character
      is alphanumeric, '-', '_' or '.'. */
  function SanitizeFilename(isAlnum: char -> bool, filename: string): (r: string)
    ensures forall k :: 0 <= k < |r| ==> KeptInName(isAlnum, r[k])
  {
    var words := FilteredWords(isAlnum, NameWords(filename));
    JoinKeeps(words, "-", c => KeptInName(isAlnum, c));
    JoinWith(words, "-")
  }

  /** The characters of the separated text: no '/', no '-'; whitespace exactly where the
      input had whitespace, '/' or '-'. */
  lemma SeparatorsToSpacesAt(s: string)
    ensures |SeparatorsToSpaces(s)| == |s|
    ensures forall k :: 0 <= k < |s| ==>
      var c := SeparatorsToSpaces(s)[k];
      c != '/' && c != '-' && (IsRustWhitespace(c) <==> IsRustWhitespace(s[k]) || s[k] == '/' || s[k] == '-')
  {
  }

  /** No word of a name contains '/' or '-'. */
  lemma NameWordsHaveNoSeparators(s: string)
    ensures AllParts(NameWords(s), c => c != '/' && c != '-')
  {
    SeparatorsToSpacesAt(s);
    SplitWhitespaceKeeps(SeparatorsToSpaces(s), c => c != '/' && c != '-');
  }

  /** The output never contains '/' or whitespace. */
  lemma SanitizeNoSlashOrWhitespace(isAlnum: char -> bool, filename: string)
    ensures var r := SanitizeFilename(isAlnum, filename);
      forall k :: 0 <= k < |r| ==> r[k] != '/' && !IsRustWhitespace(r[k])
  {
    var p := c => c != '/' && !IsRustWhitespace(c);
    var names := NameWords(filename);
    NameWordsHaveNoSeparators(filename);
    var words := FilteredWords(isAlnum, names);
    forall i | 0 <= i < |words| ensures All(words[i], p) {
      assert All(names[i], c => !IsRustWhitespace(c));
      assert All(names[i], p);
      FilterKeeps(c => KeptInName(isAlnum, c), names[i], p);
    }
    JoinKeeps(words, "-", p);
  }

  /** The filtered words contain no '-'. */
  lemma FilteredWordsHaveNoHyphen(isAlnum: char -> bool, filename: string)
    ensures var words := FilteredWords(isAlnum, NameWords(filename));
      forall i :: 0 <= i < |words| ==> '-' !in words[i]
  {
    var names := NameWords(filename);
    var words := FilteredWords(isAlnum, names);
    NameWordsHaveNoSeparators(filename);
    forall i | 0 <= i < |words| ensures '-' !in words[i] {
      assert All(names[i], c => c != '/' && c != '-');
      FilterKeeps(c => KeptInName(isAlnum, c), names[i], c => c != '-');
      assert All(words[i], c => c != '-');
    }
  }

  /** The '-'s in the output are exactly the separators between words: splitting the output on
      '-' gives back the filtered words, so there are (#words - 1) hyphens, empty words
      included; no words give "". */
  lemma SanitizeHyphens(isAlnum: char -> bool, filename: string)
    ensures var r := SanitizeFilename(isAlnum, filename);
      var words := NameWords(filename);
      (words == [] ==> r == "") &&
      (words != [] ==>
        SplitOn(r, '-') == FilteredWords(isAlnum, words) && Count(r, '-') == |words| - 1)
  {
    var words := NameWords(filename);
    if words != [] {
      FilteredWordsHaveNoHyphen(isAlnum, filename);
      SplitJoin(FilteredWords(isAlnum, words), '-');
    }
  }

  /** There are no words, and so the output is "", exactly when every input character is
      whitespace, '/' or '-' (the empty input included). */
  lemma SanitizeBlank(isAlnum: char -> bool, filename: string)
    ensures NameWords(filename) == [] <==>
      All(filename, c => IsRustWhitespace(c) || c == '/' || c == '-')
    ensures NameWords(filename) == [] ==> SanitizeFilename(isAlnum, filename) == ""
  {
    var t := SeparatorsToSpaces(filename);
    SeparatorsToSpacesAt(filename);
    SplitWhitespaceEmptyIff(t);
    assert All(t, IsRustWhitespace) <==> All(filename, c => IsRustWhitespace(c) || c == '/' || c == '-') by {
      if All(filename, c => IsRustWhitespace(c) || c == '/' || c == '-') {
        forall k | 0 <= k < |t| ensures IsRustWhitespace(t[k]) {
          assert IsRustWhitespace(filename[k]) || filename[k] == '/' || filename[k] == '-';
        }
      }
      if All(t, IsRustWhitespace) {
        forall k | 0 <= k < |filename| ensures IsRustWhitespace(filename[k]) || filename[k] == '/' || filename[k] == '-' {
          assert IsRustWhitespace(t[k]);
        }
      }
    }
  }

  // ---------------------------------------------------------------------------------------
  // The test vectors of pathutils.rs. Every `char::is_alphanumeric` agrees with ASCII on ASCII
  // characters; that is all these vectors need of it. Each step is a lemma of its own over
  // string parameters, so that no recursive function is unfolded along a whole literal.

  predicate IsAsciiAlphanumeric(c: char) {
    ('a' <= c <= 'z') || ('A' <= c <= 'Z') || ('0' <= c <= '9')
  }

  predicate AgreesOnAscii(isAlnum: char -> bool) {
    forall c: char :: c < '\U{80}' ==> (isAlnum(c) <==> IsAsciiAlphanumeric(c))
  }

  /** A character every such `isAlnum` keeps. */
  predicate AsciiNameChar(c: char) {
    IsAsciiAlphanumeric(c) || c == '_' || c == '.'
  }

  lemma SeparatorsToSpacesConcat(a: string, b: string)
    ensures SeparatorsToSpaces(a + b) == SeparatorsToSpaces(a) + SeparatorsToSpaces(b)
  {
    ReplaceCharConcat(a, b, '/', '-');
    ReplaceCharConcat(ReplaceChar(a, '/', '-'), ReplaceChar(b, '/', '-'), '-', ' ');
  }

  /** The separated text, character by character. */
  lemma SeparatorsToSpacesIs(s: string, t: string)
    requires |s| == |t|
    requires forall k :: 0 <= k < |s| ==> t[k] == (if s[k] == '/' || s[k] == '-' then ' ' else s[k])
    ensures SeparatorsToSpaces(s) == t
  {
    SeparatorsToSpacesAt(s);
  }

  /** A word of ASCII name characters survives the filter unchanged. */
  lemma KeepAsciiWord(isAlnum: char -> bool, w: string)
    requires AgreesOnAscii(isAlnum)
    requires All(w, AsciiNameChar)
    ensures KeepNameChars(isAlnum, w) == w
  {
    assert All(w, c => KeptInName(isAlnum, c)) by {
      forall k | 0 <= k < |w| ensures KeptInName(isAlnum, w[k]) {
        assert AsciiNameChar(w[k]);
      }
    }
  }

  lemma KeepAsciiWords(isAlnum: char -> bool, words: seq<string>)
    requires AgreesOnAscii(isAlnum)
    requires AllParts(words, AsciiNameChar)
    ensures FilteredWords(isAlnum, words) == words
  {
    forall i | 0 <= i < |words| ensures KeepNameChars(isAlnum, words[i]) == words[i] {
      KeepAsciiWord(isAlnum, words[i]);
    }
  }

  lemma JoinFive(p: seq<string>)
    requires |p| == 5
    ensures JoinWith(p, "-") == p[0] + "-" + (p[1] + "-" + (p[2] + "-" + (p[3] + "-" + p[4])))
  {
    assert p[4..] == [p[4]];
    assert JoinWith(p[3..], "-") == p[3] + "-" + p[4] by { assert p[3..][1..] == p[4..]; }
    assert JoinWith(p[2..], "-") == p[2] + "-" + (p[3] + "-" + p[4]) by { assert p[2..][1..] == p[3..]; }
    assert JoinWith(p[1..], "-") == p[1] + "-" + (p[2] + "-" + (p[3] + "-" + p[4])) by {
      assert p[1..][1..] == p[2..];
    }
  }

  lemma CsItSplitTail(n: string, fin: string, exam: string, sp: string, sp3: string)
    requires n == "101" && fin == "Final" && exam == "Exam.pdf" && sp == " " && sp3 == "   "
    ensures SplitWhitespace(n + sp3 + (fin + sp + exam)) == [n, fin, exam]
  {
    SplitWhitespaceWord(exam);
    SplitWhitespaceWordThen(fin, sp, exam);
    SplitWhitespaceWordThen(n, sp3, fin + sp + exam);
  }

  lemma CsItSplit(cs: string, it: string, rest: string, sp: string, tail: seq<string>)
    requires cs == "CS" && it == "IT" && sp == " "
    requires SplitWhitespace(rest) == tail
    ensures SplitWhitespace(cs + sp + (it + sp + rest)) == [cs, it] + tail
  {
    SplitWhitespaceWordThen(it, sp, rest);
    SplitWhitespaceWordThen(cs, sp, it + sp + rest);
  }

  lemma CsItWords(f: string)
    requires f == "CS/IT 101 - Final Exam.pdf"
    ensures NameWords(f) == ["CS", "IT", "101", "Final", "Exam.pdf"]
  {
    SeparatorsToSpacesIs(f, "CS" + " " + ("IT" + " " + ("101" + "   " + ("Final" + " " + "Exam.pdf"))));
    var rest := "101" + "   " + ("Final" + " " + "Exam.pdf");
    CsItSplitTail("101", "Final", "Exam.pdf", " ", "   ");
    CsItSplit("CS", "IT", rest, " ", ["101", "Final", "Exam.pdf"]);
  }

  lemma CsItKept(isAlnum: char -> bool)
    requires AgreesOnAscii(isAlnum)
    ensures FilteredWords(isAlnum, ["CS", "IT", "101", "Final", "Exam.pdf"]) == ["CS", "IT", "101", "Final", "Exam.pdf"]
  {
    KeepAsciiWords(isAlnum, ["CS", "IT", "101", "Final", "Exam.pdf"]);
  }

  lemma CsItJoined()
    ensures JoinWith(["CS", "IT", "101", "Final", "Exam.pdf"], "-") == "CS-IT-101-Final-Exam.pdf"
  {
    JoinFive(["CS", "IT", "101", "Final", "Exam.pdf"]);
    CsItHyphenated("CS", "IT", "101", "Final", "Exam.pdf", "-");
  }

  lemma CsItHyphenated(cs: string, it: string, n: string, fin: string, exam: string, h: string)
    requires cs == "CS" && it == "IT" && n == "101" && fin == "Final" && exam == "Exam.pdf" && h == "-"
    ensures cs + h + (it + h + (n + h + (fin + h + exam))) == "CS-IT-101-Final-Exam.pdf"
  {
    CsItTailHyphenated(n, fin, exam, h);
    PrefixHyphenated(it, h, "101-Final-Exam.pdf", "IT-101-Final-Exam.pdf");
    PrefixHyphenated(cs, h, "IT-101-Final-Exam.pdf", "CS-IT-101-Final-Exam.pdf");
  }

  /** One word put in front of an already hyphenated tail. */
  lemma PrefixHyphenated(w: string, h: string, tail: string, r: string)
    requires h == "-"
    requires (w == "IT" && tail == "101-Final-Exam.pdf" && r == "IT-101-Final-Exam.pdf")
      || (w == "CS" && tail == "IT-101-Final-Exam.pdf" && r == "CS-IT-101-Final-Exam.pdf")
    ensures w + h + tail == r
  {
  }

  lemma CsItTailHyphenated(n: string, fin: string, exam: string, h: string)
    requires n == "101" && fin == "Final" && exam == "Exam.pdf" && h == "-"
    ensures n + h + (fin + h + exam) == "101-Final-Exam.pdf"
  {
    assert fin + h + exam == "Final-Exam.pdf";
  }

  /** "CS/IT 101 - Final Exam.pdf" becomes "CS-IT-101-Final-Exam.pdf". */
  lemma SanitizeCsItVector(isAlnum: char -> bool, f: string)
    requires AgreesOnAscii(isAlnum)
    requires f == "CS/IT 101 - Final Exam.pdf"
    ensures SanitizeFilename(isAlnum, f) == "CS-IT-101-Final-Exam.pdf"
  {
    CsItWords(f);
    CsItKept(isAlnum);
    CsItJoined();
  }

  lemma KeepNameCharsConcat(isAlnum: char -> bool, a: string, b: string)
    ensures KeepNameChars(isAlnum, a + b) == KeepNameChars(isAlnum, a) + KeepNameChars(isAlnum, b)
  {
    FilterConcat(c => KeptInName(isAlnum, c), a, b);
  }

  lemma MathSymbolsDropped(isAlnum: char -> bool, b: string)
    requires AgreesOnAscii(isAlnum)
    requires b == "@#$%^&*()"
    ensures KeepNameChars(isAlnum, b) == ""
  {
    assert b == "@#$%" + "^&*()";
    SymbolsDropped(isAlnum, "@#$%");
    SymbolsDropped(isAlnum, "^&*()");
    KeepNameCharsConcat(isAlnum, "@#$%", "^&*()");
  }

  /** A few ASCII symbols, none of which a name keeps. */
  lemma SymbolsDropped(isAlnum: char -> bool, b: string)
    requires AgreesOnAscii(isAlnum)
    requires b == "@#$%" || b == "^&*()"
    ensures KeepNameChars(isAlnum, b) == ""
  {
    forall k | 0 <= k < |b| ensures !KeptInName(isAlnum, b[k]) {
      assert !IsAsciiAlphanumeric(b[k]);
    }
  }

  /** Filtering a word whose middle the filter drops entirely. */
  lemma KeepAroundDropped(isAlnum: char -> bool, a: string, b: string, c: string)
    requires AgreesOnAscii(isAlnum)
    requires All(a, AsciiNameChar) && All(c, AsciiNameChar)
    requires KeepNameChars(isAlnum, b) == ""
    ensures KeepNameChars(isAlnum, a + b + c) == a + c
  {
    KeepNameCharsConcat(isAlnum, a, b);
    KeepNameCharsConcat(isAlnum, a + b, c);
    KeepAsciiWord(isAlnum, a);
    KeepAsciiWord(isAlnum, c);
  }

  lemma MathWords(f: string)
    requires f == "Math@#$%^&*()_notes.pdf"
    ensures NameWords(f) == [f]
  {
    MathSeparated(f);
    MathOneWord(f);
  }

  lemma MathSeparated(f: string)
    requires f == "Math@#$%^&*()_notes.pdf"
    ensures SeparatorsToSpaces(f) == f
  {
    SeparatorsToSpacesNone(f);
  }

  lemma MathOneWord(f: string)
    requires f == "Math@#$%^&*()_notes.pdf"
    ensures SplitWhitespace(f) == [f]
  {
    SplitWhitespaceWord(f);
  }

  /** Text without '/' or '-' is left as it is. */
  lemma SeparatorsToSpacesNone(s: string)
    requires '/' !in s && '-' !in s
    ensures SeparatorsToSpaces(s) == s
  {
    SeparatorsToSpacesIs(s, s);
  }

  lemma MathKept(isAlnum: char -> bool, a: string, b: string, c: string)
    requires AgreesOnAscii(isAlnum)
    requires a == "Math" && b == "@#$%^&*()" && c == "_notes.pdf"
    ensures FilteredWords(isAlnum, [a + b + c]) == [a + c]
  {
    MathSymbolsDropped(isAlnum, b);
    KeepAroundDropped(isAlnum, a, b, c);
    assert FilteredWords(isAlnum, [a + b + c])[0] == a + c;
  }

  /** "Math@#$%^&*()_notes.pdf" becomes "Math_notes.pdf". */
  lemma SanitizeMathVector(isAlnum: char -> bool, f: string)
    requires AgreesOnAscii(isAlnum)
    requires f == "Math@#$%^&*()_notes.pdf"
    ensures SanitizeFilename(isAlnum, f) == "Math_notes.pdf"
  {
    MathWords(f);
    MathPieces(f, "Math", "@#$%^&*()", "_notes.pdf");
    MathKept(isAlnum, "Math", "@#$%^&*()", "_notes.pdf");
    assert "Math" + "_notes.pdf" == "Math_notes.pdf";
  }

  lemma MathPieces(f: string, a: string, b: string, c: string)
    requires f == "Math@#$%^&*()_notes.pdf" && a == "Math" && b == "@#$%^&*()" && c == "_notes.pdf"
    ensures f == a + b + c
  {
  }

  lemma SpacedSplit(gap: string, spaced: string, out: string, ext: string)
    requires gap == "   " && spaced == "spaced" && out == "out" && ext == ".pdf"
    ensures SplitWhitespace(gap + (spaced + gap + (out + gap + ext))) == [spaced, out, ext]
  {
    SpacedSplitTail(gap, out, ext);
    SplitWhitespaceWordThen(spaced, gap, out + gap + ext);
    SplitWhitespaceGapThen(gap, spaced + gap + (out + gap + ext));
  }

  lemma SpacedSplitTail(gap: string, out: string, ext: string)
    requires gap == "   " && out == "out" && ext == ".pdf"
    ensures SplitWhitespace(out + gap + ext) == [out, ext]
  {
    SplitWhitespaceWordThen(out, gap, ext);
    SplitWhitespaceWord(ext);
  }

  lemma SpacedWords(f: string)
    requires f == "   spaced   out   .pdf"
    ensures NameWords(f) == ["spaced", "out", ".pdf"]
  {
    SeparatorsToSpacesIs(f, "   " + ("spaced" + "   " + ("out" + "   " + ".pdf")));
    SpacedSplit("   ", "spaced", "out", ".pdf");
  }

  lemma SpacedKept(isAlnum: char -> bool)
    requires AgreesOnAscii(isAlnum)
    ensures FilteredWords(isAlnum, ["spaced", "out", ".pdf"]) == ["spaced", "out", ".pdf"]
  {
    KeepAsciiWords(isAlnum, ["spaced", "out", ".pdf"]);
  }

  lemma SpacedJoined()
    ensures JoinWith(["spaced", "out", ".pdf"], "-") == "spaced-out-.pdf"
  {
    assert ["spaced", "out", ".pdf"][1..] == ["out", ".pdf"];
    assert ["out", ".pdf"][1..] == [".pdf"];
  }

  /** "   spaced   out   .pdf" becomes "spaced-out-.pdf". */
  lemma SanitizeSpacedVector(isAlnum: char -> bool, f: string)
    requires AgreesOnAscii(isAlnum)
    requires f == "   spaced   out   .pdf"
    ensures SanitizeFilename(isAlnum, f) == "spaced-out-.pdf"
  {
    SpacedWords(f);
    SpacedKept(isAlnum);
    SpacedJoined();
  }

  // ---------------------------------------------------------------------------------------
  // The doc comment of sanitize_filename promises that runs of spaces or hyphens end up as a
  // single '-'. A word that the filter empties still takes part in the join, so the code can
  // produce "--" (and a leading or trailing '-').

  lemma SpacedAtSplit(a: string, at: string, b: string, sp: string)
    requires a == "a" && at == "@" && b == "b" && sp == " "
    ensures SplitWhitespace(a + sp + (at + sp + b)) == [a, at, b]
  {
    SplitWhitespaceWordThen(a, sp, at + sp + b);
    SplitWhitespaceWordThen(at, sp, b);
    SplitWhitespaceWord(b);
  }

  lemma SpacedAtFiltered(isAlnum: char -> bool, f: string)
    requires AgreesOnAscii(isAlnum)
    requires f == "a @ b"
    ensures FilteredWords(isAlnum, NameWords(f)) == ["a", "", "b"]
  {
    SeparatorsToSpacesIs(f, "a" + " " + ("@" + " " + "b"));
    SpacedAtSplit("a", "@", "b", " ");
    assert KeepNameChars(isAlnum, "@") == "" by { assert !IsAsciiAlphanumeric('@'); }
    KeepAsciiWord(isAlnum, "a");
    KeepAsciiWord(isAlnum, "b");
  }

  /** As written: "a @ b" becomes "a--b". */
  lemma SanitizeKeepsEmptiedWords(isAlnum: char -> bool, f: string)
    requires AgreesOnAscii(isAlnum)
    requires f == "a @ b"
    ensures SanitizeFilename(isAlnum, f) == "a--b"
  {
    SpacedAtFiltered(isAlnum, f);
    assert JoinWith(["a", "", "b"], "-") == "a" + "-" + ("" + "-" + "b") by {
      assert ["a", "", "b"][1..] == ["", "b"];
    }
  }

  /** Drops the empty strings, keeping the order of the others. */
  function NonEmpty(words: seq<string>): (r: seq<string>)
    ensures forall i :: 0 <= i < |r| ==> r[i] != [] && r[i] in words
    ensures (forall i :: 0 <= i < |words| ==> words[i] != []) ==> r == words
  {
    if words == [] then []
    else if words[0] == [] then NonEmpty(words[1..])
    else [words[0]] + NonEmpty(words[1..])
  }

  /** `sanitize_filename` as its doc comment describes it: words that the filter empties are
      dropped before the join. */
  function SanitizeFilenameCollapsed(isAlnum: char -> bool, filename: string): string {
    JoinWith(NonEmpty(FilteredWords(isAlnum, NameWords(filename))), "-")
  }

  /** The intended behaviour: the corrected output never starts or ends with '-', never holds
      "--", and is the as-written output whenever no word is emptied by the filter. */
  lemma SanitizeCollapsedHasSingleHyphens(isAlnum: char -> bool, filename: string)
    ensures var r := SanitizeFilenameCollapsed(isAlnum, filename);
      (r != [] ==> r[0] != '-' && r[|r| - 1] != '-') &&
      (forall k :: 0 <= k < |r| - 1 ==> !(r[k] == '-' && r[k + 1] == '-'))
    ensures (forall i :: 0 <= i < |NameWords(filename)| ==> KeepNameChars(isAlnum, NameWords(filename)[i]) != [])
      ==> SanitizeFilenameCollapsed(isAlnum, filename) == SanitizeFilename(isAlnum, filename)
  {
    var words := FilteredWords(isAlnum, NameWords(filename));
    FilteredWordsHaveNoHyphen(isAlnum, filename);
    var kept := NonEmpty(words);
    forall i | 0 <= i < |kept| ensures kept[i] != [] && '-' !in kept[i] {
      assert kept[i] in words;
    }
    JoinNonEmptyParts(kept, '-');
  }

  lemma SpacedAtCollapsed()
    ensures JoinWith(NonEmpty(["a", "", "b"]), "-") == "a-b"
  {
    assert ["a", "", "b"][1..] == ["", "b"];
    assert ["", "b"][1..] == ["b"];
    assert NonEmpty(["a", "", "b"]) == ["a", "b"];
    assert ["a", "b"][1..] == ["b"];
  }

  /** Corrected: "a @ b" becomes "a-b". */
  lemma SanitizeCollapsedVector(isAlnum: char -> bool, f: string)
    requires AgreesOnAscii(isAlnum)
    requires f == "a @ b"
    ensures SanitizeFilenameCollapsed(isAlnum, f) == "a-b"
  {
    SpacedAtFiltered(isAlnum, f);
    SpacedAtCollapsed();
  }
}
