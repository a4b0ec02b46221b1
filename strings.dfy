/**
 * The string operations the core relies on from Rust's and JavaScript's standard libraries:
 * whitespace classes, trimming, splitting on a character or on whitespace, joining and
 * per-character replacement and filtering. Strings are sequences of Unicode scalar values.
 */
module Strings {

  /** Rust's `char::is_whitespace`: the Unicode White_Space property (used by `str::trim`
      and `str::split_whitespace`). */
  predicate IsRustWhitespace(c: char) {
    ('\t' <= c <= '\r') || c == ' ' || c == '\U{85}' || c == '\U{A0}' || c == '\U{1680}'
    || ('\U{2000}' <= c <= '\U{200A}') || c == '\U{2028}' || c == '\U{2029}' || c == '\U{202F}'
    || c == '\U{205F}' || c == '\U{3000}'
  }

  /** ECMAScript WhiteSpace and LineTerminator: what `String.prototype.trim` strips. Unlike
      Rust it includes U+FEFF and excludes U+0085. */
  predicate IsJsWhitespace(c: char) {
    ('\t' <= c <= '\r') || c == ' ' || c == '\U{A0}' || c == '\U{1680}'
    || ('\U{2000}' <= c <= '\U{200A}') || c == '\U{2028}' || c == '\U{2029}' || c == '\U{202F}'
    || c == '\U{205F}' || c == '\U{3000}' || c == '\U{FEFF}'
  }

  /** Every character of `s` satisfies `p`. */
  predicate All(s: string, p: char -> bool) {
    forall k :: 0 <= k < |s| ==> p(s[k])
  }

  /** Every character of every part satisfies `p`. */
  predicate AllParts(parts: seq<string>, p: char -> bool) {
    forall i :: 0 <= i < |parts| ==> All(parts[i], p)
  }

  // ---------------------------------------------------------------------------------------
  // Trimming

  /** Both ends stripped, as JavaScript's `trim()` and Rust's `str::trim()` do with their own
      whitespace classes: leading and trailing characters satisfying `isWs` are dropped until
      both ends are kept characters. */
  function Trim(isWs: char -> bool, s: string): string
    decreases |s|
  {
    if s != [] && isWs(s[0]) then Trim(isWs, s[1..])
    else if s != [] && isWs(s[|s| - 1]) then Trim(isWs, s[..|s| - 1])
    else s
  }

  /** The result is a piece of `s` that neither starts nor ends with whitespace; it is empty
      exactly when `s` is all whitespace, and it is `s` itself when `s` has no whitespace at
      either end. */
  lemma {:induction false} TrimProperties(isWs: char -> bool, s: string)
    ensures |Trim(isWs, s)| <= |s|
    ensures Trim(isWs, s) == [] || (!isWs(Trim(isWs, s)[0]) && !isWs(Trim(isWs, s)[|Trim(isWs, s)| - 1]))
    ensures Trim(isWs, s) == [] <==> All(s, isWs)
    ensures s == [] || (!isWs(s[0]) && !isWs(s[|s| - 1])) ==> Trim(isWs, s) == s
    ensures forall k :: 0 <= k < |Trim(isWs, s)| ==> Trim(isWs, s)[k] in s
    decreases |s|
  {
    if s != [] && isWs(s[0]) {
      var t := s[1..];
      TrimProperties(isWs, t);
      assert All(s, isWs) <==> All(t, isWs) by {
        if All(t, isWs) {
          forall k | 0 <= k < |s| ensures isWs(s[k]) {
            if k > 0 { assert s[k] == t[k - 1]; }
          }
        }
      }
      forall x | x in t ensures x in s {
        var k :| 0 <= k < |t| && t[k] == x;
        assert s[k + 1] == x;
      }
    } else if s != [] && isWs(s[|s| - 1]) {
      var t := s[..|s| - 1];
      TrimProperties(isWs, t);
      // The first character is kept, so neither `s` nor `t` is all whitespace.
      assert t[0] == s[0];
      forall x | x in t ensures x in s {
        var k :| 0 <= k < |t| && t[k] == x;
        assert s[k] == x;
      }
    }
  }

  /** Trimming twice trims nothing more. */
  lemma TrimIdempotent(isWs: char -> bool, s: string)
    ensures Trim(isWs, Trim(isWs, s)) == Trim(isWs, s)
  {
    TrimProperties(isWs, s);
    TrimProperties(isWs, Trim(isWs, s));
  }

  // ---------------------------------------------------------------------------------------
  // Counting, splitting on a character, joining

  /** Number of occurrences of `c` in `s`. */
  function Count(s: string, c: char): (n: nat)
    ensures n <= |s|
    ensures n == 0 <==> c !in s
  {
    if s == [] then 0 else (if s[0] == c then 1 else 0) + Count(s[1..], c)
  }

  lemma {:induction false} CountConcat(a: string, b: string, c: char)
    ensures Count(a + b, c) == Count(a, c) + Count(b, c)
    decreases |a|
  {
    if a == [] {
      assert a + b == b;
    } else {
      assert (a + b)[1..] == a[1..] + b;
      CountConcat(a[1..], b, c);
    }
  }

  /** Position just after the last `c` in `s` (0 when there is none). */
  function AfterLast(s: string, c: char): (n: nat)
    ensures n <= |s|
    ensures n > 0 ==> s[n - 1] == c
    ensures forall k :: n <= k < |s| ==> s[k] != c
  {
    if s == [] then 0
    else if s[|s| - 1] == c then |s|
    else AfterLast(s[..|s| - 1], c)
  }

  /** The last `c` of `a + [c] + b` is the one between them when `b` has none. */
  lemma {:induction false} AfterLastSplit(a: string, b: string, c: char)
    requires c !in b
    ensures AfterLast(a + [c] + b, c) == |a| + 1
    decreases |b|
  {
    var s := a + [c] + b;
    if b == [] {
      assert s[|s| - 1] == c;
    } else {
      assert s[|s| - 1] == b[|b| - 1];
      assert s[..|s| - 1] == a + [c] + b[..|b| - 1];
      AfterLastSplit(a, b[..|b| - 1], c);
    }
  }

  /** Rust's `str::split(sep)` for a character: the pieces between occurrences of `sep`,
      empty pieces included, so there is always one more piece than separators. */
  function SplitOn(s: string, sep: char): (r: seq<string>)
    ensures |r| == Count(s, sep) + 1
    ensures forall i :: 0 <= i < |r| ==> sep !in r[i]
    decreases |s|
  {
    if s == [] then [""]
    else
      var rest := SplitOn(s[1..], sep);
      if s[0] == sep then [""] + rest else [[s[0]] + rest[0]] + rest[1..]
  }

  /** A string without the separator splits into itself alone. */
  lemma {:induction false} SplitOnAbsent(s: string, sep: char)
    requires sep !in s
    ensures SplitOn(s, sep) == [s]
    decreases |s|
  {
    if s != [] {
      SplitOnAbsent(s[1..], sep);
      assert [s[0]] + s[1..] == s;
    }
  }

  /** Rust's `[String]::join(sep)`: the parts with `sep` between neighbours; no parts give "". */
  function JoinWith(parts: seq<string>, sep: string): string
  {
    if |parts| == 0 then ""
    else if |parts| == 1 then parts[0]
    else parts[0] + sep + JoinWith(parts[1..], sep)
  }

  /** Joining the pieces of a split with the separator gives back the original string. */
  lemma {:induction false} JoinSplit(s: string, sep: char)
    ensures JoinWith(SplitOn(s, sep), [sep]) == s
    decreases |s|
  {
    if s != [] {
      JoinSplit(s[1..], sep);
      JoinSplitStep(s, sep);
    }
  }

  /** One step of `JoinSplit`: the first character goes back in front of the rest's join. */
  lemma JoinSplitStep(s: string, sep: char)
    requires s != []
    requires JoinWith(SplitOn(s[1..], sep), [sep]) == s[1..]
    ensures JoinWith(SplitOn(s, sep), [sep]) == s
  {
    if s[0] == sep {
      JoinSplitAtSeparator(s, sep);
    } else {
      JoinSplitInPiece(s, sep);
    }
  }

  /** A leading separator: an empty first piece, then the rest's pieces. */
  lemma JoinSplitAtSeparator(s: string, sep: char)
    requires s != [] && s[0] == sep
    requires JoinWith(SplitOn(s[1..], sep), [sep]) == s[1..]
    ensures JoinWith(SplitOn(s, sep), [sep]) == s
  {
    var r := SplitOn(s, sep);
    assert r[1..] == SplitOn(s[1..], sep);
    assert JoinWith(r, [sep]) == "" + [sep] + s[1..];
    assert s == [s[0]] + s[1..];
  }

  /** A leading character other than the separator joins the rest's first piece. */
  lemma JoinSplitInPiece(s: string, sep: char)
    requires s != [] && s[0] != sep
    requires JoinWith(SplitOn(s[1..], sep), [sep]) == s[1..]
    ensures JoinWith(SplitOn(s, sep), [sep]) == s
  {
    var rest := SplitOn(s[1..], sep);
    var r := SplitOn(s, sep);
    assert r == [[s[0]] + rest[0]] + rest[1..];
    JoinInFront(s[0], rest, sep);
    assert s == [s[0]] + s[1..];
  }

  /** Putting a character in front of the first part puts it in front of the join. */
  lemma JoinInFront(c: char, parts: seq<string>, sep: char)
    requires |parts| >= 1
    ensures JoinWith([[c] + parts[0]] + parts[1..], [sep]) == [c] + JoinWith(parts, [sep])
  {
    var r := [[c] + parts[0]] + parts[1..];
    assert r[0] == [c] + parts[0];
    if |parts| > 1 {
      var tail := JoinWith(parts[1..], [sep]);
      assert r[1..] == parts[1..];
      assert JoinWith(r, [sep]) == ([c] + parts[0]) + [sep] + tail;
      Regroup([c], parts[0], [sep], tail);
    }
  }

  /** Concatenation is associative. */
  lemma Associative<T>(x: seq<T>, y: seq<T>, z: seq<T>)
    ensures (x + y) + z == x + (y + z)
  {
  }

  /** Moving the first piece of a concatenation of four out in front. */
  lemma Regroup(a: string, b: string, c: string, d: string)
    ensures (a + b) + c + d == a + (b + c + d)
  {
  }

  /** Splitting text that starts with a separator-free piece `a`. */
  lemma {:induction false} SplitOnPrefix(a: string, t: string, sep: char)
    requires sep !in a
    ensures SplitOn(a + t, sep) == [a + SplitOn(t, sep)[0]] + SplitOn(t, sep)[1..]
    decreases |a|
  {
    if a != [] {
      SplitOnPrefix(a[1..], t, sep);
      assert a + t == [a[0]] + (a[1..] + t);
      SplitOnCons(a[0], a[1..] + t, sep);
      PrefixRegroup(a, SplitOn(t, sep)[0]);
    } else {
      var r := SplitOn(t, sep);
      assert a + t == t && a + r[0] == r[0];
      assert [r[0]] + r[1..] == r;
    }
  }

  /** Splitting text that starts with one character: a separator opens a new, empty first
      piece; any other character joins the first piece. */
  lemma SplitOnCons(c: char, t: string, sep: char)
    ensures SplitOn([c] + t, sep) == if c == sep then [""] + SplitOn(t, sep)
      else [[c] + SplitOn(t, sep)[0]] + SplitOn(t, sep)[1..]
  {
    assert ([c] + t)[1..] == t;
  }

  /** The first character of `a`, then the rest of `a` followed by `b`, is `a + b`. */
  lemma PrefixRegroup(a: string, b: string)
    requires a != []
    ensures [a[0]] + (a[1..] + b) == a + b
  {
    assert a == [a[0]] + a[1..];
  }

  /** Splitting a join of separator-free parts gives the parts back. */
  lemma {:induction false} SplitJoin(parts: seq<string>, sep: char)
    requires |parts| >= 1
    requires forall i :: 0 <= i < |parts| ==> sep !in parts[i]
    ensures SplitOn(JoinWith(parts, [sep]), sep) == parts
    decreases |parts|
  {
    if |parts| == 1 {
      SplitOnPrefix(parts[0], "", sep);
      assert parts[0] + "" == parts[0];
    } else {
      var tail := JoinWith(parts[1..], [sep]);
      SplitJoin(parts[1..], sep);
      assert JoinWith(parts, [sep]) == parts[0] + ([sep] + tail);
      SplitOnPrefix(parts[0], [sep] + tail, sep);
      assert ([sep] + tail)[1..] == tail;
      assert SplitOn([sep] + tail, sep) == [""] + parts[1..];
      assert parts[0] + "" == parts[0];
    }
  }

  /** A predicate that holds of every character of the parts and of the separator holds of
      every character of their join. */
  lemma {:induction false} JoinKeeps(parts: seq<string>, sep: string, p: char -> bool)
    requires AllParts(parts, p) && All(sep, p)
    ensures All(JoinWith(parts, sep), p)
    decreases |parts|
  {
    if |parts| > 1 {
      JoinKeeps(parts[1..], sep, p);
      var tail := JoinWith(parts[1..], sep);
      var r := parts[0] + sep + tail;
      forall k | 0 <= k < |r| ensures p(r[k]) {
        if k < |parts[0]| {
          assert r[k] == parts[0][k];
        } else if k < |parts[0]| + |sep| {
          assert r[k] == sep[k - |parts[0]|];
        } else {
          assert r[k] == tail[k - |parts[0]| - |sep|];
        }
      }
    } else if |parts| == 1 {
      assert All(parts[0], p);
    }
  }

  /** Joining separator-free, non-empty parts: the separator never starts or ends the result
      and never appears twice in a row. */
  lemma {:induction false} JoinNonEmptyParts(parts: seq<string>, sep: char)
    requires forall i :: 0 <= i < |parts| ==> parts[i] != [] && sep !in parts[i]
    ensures var r := JoinWith(parts, [sep]);
      (r == [] <==> parts == []) &&
      (r != [] ==> r[0] != sep && r[|r| - 1] != sep) &&
      forall k :: 0 <= k < |r| - 1 ==> !(r[k] == sep && r[k + 1] == sep)
    decreases |parts|
  {
    if |parts| > 1 {
      JoinNonEmptyParts(parts[1..], sep);
      var head := parts[0];
      var tail := JoinWith(parts[1..], [sep]);
      var r := head + [sep] + tail;
      assert tail != [] && tail[0] != sep;
      assert head[|head| - 1] != sep by { assert head[|head| - 1] in head; }
      assert r[0] == head[0] && head[0] in head;
      assert r[|r| - 1] == tail[|tail| - 1];
      forall k | 0 <= k < |r| - 1 ensures !(r[k] == sep && r[k + 1] == sep) {
        if k < |head| - 1 {
          assert r[k] == head[k] && head[k] in head;
        } else if k == |head| - 1 {
          assert r[k] == head[k];
        } else if k == |head| {
          assert r[k + 1] == tail[0];
        } else {
          assert r[k] == tail[k - |head| - 1] && r[k + 1] == tail[k + 1 - |head| - 1];
        }
      }
    } else if |parts| == 1 {
      var r := parts[0];
      assert r[0] in r && r[|r| - 1] in r;
      forall k | 0 <= k < |r| - 1 ensures !(r[k] == sep && r[k + 1] == sep) {
        assert r[k] in r;
      }
    }
  }

  // ---------------------------------------------------------------------------------------
  // Per-character replacement and filtering

  /** Rust's `str::replace(from, to)` for a one-character pattern and a one-character
      replacement: every `from` becomes `to`, everything else is kept in place. */
  function ReplaceChar(s: string, from: char, to: char): (r: string)
    ensures |r| == |s|
    ensures forall k :: 0 <= k < |s| ==> r[k] == (if s[k] == from then to else s[k])
  {
    seq(|s|, k requires 0 <= k < |s| => if s[k] == from then to else s[k])
  }

  lemma {:induction false} ReplaceCharConcat(a: string, b: string, from: char, to: char)
    ensures ReplaceChar(a + b, from, to) == ReplaceChar(a, from, to) + ReplaceChar(b, from, to)
  {
    var l := ReplaceChar(a + b, from, to);
    var r := ReplaceChar(a, from, to) + ReplaceChar(b, from, to);
    assert |l| == |r|;
    forall k | 0 <= k < |l| ensures l[k] == r[k] {
      if k < |a| { assert (a + b)[k] == a[k]; } else { assert (a + b)[k] == b[k - |a|]; }
    }
  }

  /** Keeps, in order, the characters satisfying `keep` (Rust's `chars().filter(..).collect()`). */
  function Filter(keep: char -> bool, s: string): (r: string)
    ensures |r| <= |s|
    ensures forall k :: 0 <= k < |r| ==> keep(r[k]) && r[k] in s
    ensures All(s, keep) ==> r == s
    ensures (forall k :: 0 <= k < |s| ==> !keep(s[k])) ==> r == []
  {
    if s == [] then []
    else if keep(s[0]) then [s[0]] + Filter(keep, s[1..])
    else Filter(keep, s[1..])
  }

  /** Filtering drops no kept character: each one occurs in the result as often as in the
      input, and every other character not at all. */
  lemma {:induction false} FilterCounts(keep: char -> bool, s: string)
    ensures forall c :: multiset(Filter(keep, s))[c] == if keep(c) then multiset(s)[c] else 0
  {
    if s != [] {
      FilterCounts(keep, s[1..]);
      assert s == [s[0]] + s[1..];
    }
  }

  /** Filtering only removes characters, so whatever held of every character still does. */
  lemma FilterKeeps(keep: char -> bool, s: string, p: char -> bool)
    requires All(s, p)
    ensures All(Filter(keep, s), p)
  {
    var r := Filter(keep, s);
    forall k | 0 <= k < |r| ensures p(r[k]) {
      assert r[k] in s;
      var j :| 0 <= j < |s| && s[j] == r[k];
    }
  }

  lemma {:induction false} FilterConcat(keep: char -> bool, a: string, b: string)
    ensures Filter(keep, a + b) == Filter(keep, a) + Filter(keep, b)
    decreases |a|
  {
    if a == [] {
      assert a + b == b;
    } else {
      assert (a + b)[1..] == a[1..] + b;
      FilterConcat(keep, a[1..], b);
    }
  }

  // ---------------------------------------------------------------------------------------
  // Splitting on whitespace

  /** Length of the leading run of characters that are not Rust whitespace. */
  function WordLength(s: string): (n: nat)
    ensures n <= |s|
    ensures forall k :: 0 <= k < n ==> !IsRustWhitespace(s[k])
    ensures n < |s| ==> IsRustWhitespace(s[n])
  {
    if s == [] || IsRustWhitespace(s[0]) then 0 else 1 + WordLength(s[1..])
  }

  /** Rust's `str::split_whitespace`: the maximal non-empty runs of non-whitespace characters,
      in order. */
  function SplitWhitespace(s: string): (r: seq<string>)
    ensures forall i :: 0 <= i < |r| ==> r[i] != [] && All(r[i], c => !IsRustWhitespace(c))
    decreases |s|
  {
    if s == [] then []
    else if IsRustWhitespace(s[0]) then SplitWhitespace(s[1..])
    else
      var n := WordLength(s);
      [s[..n]] + SplitWhitespace(s[n..])
  }

  /** There are no words exactly when the text is all whitespace. */
  lemma {:induction false} SplitWhitespaceEmptyIff(s: string)
    ensures SplitWhitespace(s) == [] <==> All(s, IsRustWhitespace)
    decreases |s|
  {
    if s != [] && IsRustWhitespace(s[0]) {
      SplitWhitespaceEmptyIff(s[1..]);
      assert All(s, IsRustWhitespace) <==> All(s[1..], IsRustWhitespace) by {
        if All(s[1..], IsRustWhitespace) {
          forall k | 0 <= k < |s| ensures IsRustWhitespace(s[k]) {
            if k > 0 { assert s[k] == s[1..][k - 1]; }
          }
        }
      }
    }
  }

  /** Each word is made of characters of the text: a predicate that holds of every character
      of the text holds of every character of every word. */
  lemma {:induction false} SplitWhitespaceKeeps(s: string, p: char -> bool)
    requires All(s, p)
    ensures AllParts(SplitWhitespace(s), p)
    decreases |s|
  {
    if s != [] {
      if IsRustWhitespace(s[0]) {
        SplitWhitespaceKeeps(s[1..], p);
      } else {
        var n := WordLength(s);
        SplitWhitespaceKeeps(s[n..], p);
      }
    }
  }

  lemma {:induction false} WordLengthConcat(a: string, b: string)
    requires WordLength(a) < |a| || b == [] || IsRustWhitespace(b[0])
    ensures WordLength(a + b) == WordLength(a)
    decreases |a|
  {
    if a == [] {
      assert a + b == b;
    } else if !IsRustWhitespace(a[0]) {
      assert (a + b)[1..] == a[1..] + b;
      WordLengthConcat(a[1..], b);
    }
  }

  /** Splitting distributes over a concatenation whose seam falls on whitespace (or at an end). */
  lemma {:induction false} SplitWhitespaceConcat(a: string, b: string)
    requires a == [] || b == [] || IsRustWhitespace(a[|a| - 1]) || IsRustWhitespace(b[0])
    ensures SplitWhitespace(a + b) == SplitWhitespace(a) + SplitWhitespace(b)
    decreases |a|, 2
  {
    if a == [] {
      assert a + b == b;
    } else if IsRustWhitespace(a[0]) {
      assert (a + b)[1..] == a[1..] + b;
      SplitWhitespaceConcat(a[1..], b);
    } else {
      SplitWhitespaceConcatWord(a, b);
    }
  }

  /** The case of `SplitWhitespaceConcat` where `a` starts with a word. */
  lemma {:induction false} SplitWhitespaceConcatWord(a: string, b: string)
    requires a != [] && !IsRustWhitespace(a[0])
    requires b == [] || IsRustWhitespace(a[|a| - 1]) || IsRustWhitespace(b[0])
    ensures SplitWhitespace(a + b) == SplitWhitespace(a) + SplitWhitespace(b)
    decreases |a|, 1
  {
    if WordLength(a) < |a| {
      SplitWhitespaceConcatWordGap(a, b);
    } else {
      assert All(a, c => !IsRustWhitespace(c));
      SplitWhitespaceLeadingWord(a, b);
      SplitWhitespaceLeadingWord(a, []);
      assert a + [] == a;
    }
  }

  /** The case where `a` starts with a word that whitespace ends before `a` does. */
  lemma {:induction false} SplitWhitespaceConcatWordGap(a: string, b: string)
    requires a != [] && !IsRustWhitespace(a[0]) && WordLength(a) < |a|
    requires b == [] || IsRustWhitespace(a[|a| - 1]) || IsRustWhitespace(b[0])
    ensures SplitWhitespace(a + b) == SplitWhitespace(a) + SplitWhitespace(b)
    decreases |a|, 0
  {
    var m := WordLength(a);
    var w, rest := a[..m], a[m..];
    assert a == w + rest;
    assert w != [] && All(w, c => !IsRustWhitespace(c));
    SplitWhitespaceLeadingWord(w, rest);
    Associative(w, rest, b);
    SplitWhitespaceLeadingWord(w, rest + b);
    assert rest[|rest| - 1] == a[|a| - 1];
    SplitWhitespaceConcat(rest, b);
    Associative([w], SplitWhitespace(rest), SplitWhitespace(b));
  }

  /** A word followed by nothing or by whitespace is the first word. */
  lemma SplitWhitespaceLeadingWord(w: string, rest: string)
    requires w != [] && All(w, c => !IsRustWhitespace(c))
    requires rest == [] || IsRustWhitespace(rest[0])
    ensures SplitWhitespace(w + rest) == [w] + SplitWhitespace(rest)
  {
    assert WordLength(w) == |w|;
    WordLengthConcat(w, rest);
    assert (w + rest)[..|w|] == w;
    assert (w + rest)[|w|..] == rest;
  }

  /** A non-empty run without whitespace is a single word. */
  lemma SplitWhitespaceWord(w: string)
    requires w != [] && All(w, c => !IsRustWhitespace(c))
    ensures SplitWhitespace(w) == [w]
  {
    assert WordLength(w) == |w|;
    assert w[..|w|] == w;
  }

  /** A word followed by whitespace: the word, then the words of the rest. */
  lemma SplitWhitespaceWordThen(w: string, gap: string, rest: string)
    requires w != [] && All(w, c => !IsRustWhitespace(c))
    requires gap != [] && All(gap, IsRustWhitespace)
    ensures SplitWhitespace(w + gap + rest) == [w] + SplitWhitespace(rest)
  {
    assert SplitWhitespace(w + gap) == [w] by {
      SplitWhitespaceConcat(w, gap);
      SplitWhitespaceWord(w);
      SplitWhitespaceEmptyIff(gap);
    }
    SplitWhitespaceConcat(w + gap, rest);
  }

  /** Leading whitespace contributes no word. */
  lemma SplitWhitespaceGapThen(gap: string, rest: string)
    requires All(gap, IsRustWhitespace)
    ensures SplitWhitespace(gap + rest) == SplitWhitespace(rest)
  {
    SplitWhitespaceEmptyIff(gap);
    if gap != [] {
      SplitWhitespaceConcat(gap, rest);
    } else {
      assert gap + rest == rest;
    }
  }
}
