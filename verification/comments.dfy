// Comment and blank-line removal of the offline similarity pipeline.
// Python files lose every `#` comment; every other file loses `//`
// comments first and block comments second; then blank lines are dropped.
// The regular expressions of the pipeline are written out here as explicit
// left-to-right scanners. (Line comments are used wherever a comment has to
// spell the block-comment delimiters, which would otherwise nest.)
module Comments {
  import opened Text

  /** A marker that starts a comment running to the end of its line. The
      pipeline uses `#` and `//`; a marker of at most two characters without
      a line feed is all the scanner below relies on. */
  predicate IsLineMarker(m: string) {
    1 <= |m| <= 2 && '\n' !in m
  }

  /** `re.sub(marker + '.*', '', s)`: every occurrence of `marker` is deleted
      together with the rest of its line, because `.` matches anything but a
      line feed. The line feed itself is kept. */
  function StripToLineEnd(s: string, marker: string): (r: string)
    requires IsLineMarker(marker)
    decreases |s|
  {
    if s == [] then []
    else if OccursAt(s, marker, 0) then
      assert s[0] == marker[0];
      StripToLineEnd(s[LineEnd(s)..], marker)
    else [s[0]] + StripToLineEnd(s[1..], marker)
  }

  /** No marker is left, and the result starts where the input does or at a
      line feed. */
  lemma {:induction false} StripRemovesMarker(s: string, m: string)
    requires IsLineMarker(m)
    ensures !Contains(StripToLineEnd(s, m), m)
    ensures var r := StripToLineEnd(s, m); r == [] || (s != [] && (r[0] == s[0] || r[0] == '\n'))
    decreases |s|
  {
    if s != [] {
      if OccursAt(s, m, 0) {
        assert s[0] == m[0];
        StripRemovesMarker(s[LineEnd(s)..], m);
      } else {
        var rest := StripToLineEnd(s[1..], m);
        var r := [s[0]] + rest;
        StripRemovesMarker(s[1..], m);
        ContainsCons(s[0], rest, m);
      }
    }
  }

  /** Text without the marker is left as it is. */
  lemma {:induction false} StripWithoutMarker(s: string, m: string)
    requires IsLineMarker(m) && !Contains(s, m)
    ensures StripToLineEnd(s, m) == s
    decreases |s|
  {
    if s != [] {
      assert s == [s[0]] + s[1..];
      ContainsCons(s[0], s[1..], m);
      StripWithoutMarker(s[1..], m);
    }
  }

  /** Every line feed is kept: the pass never joins lines. */
  lemma {:induction false} StripKeepsLineFeeds(s: string, m: string)
    requires IsLineMarker(m)
    ensures CountChar(StripToLineEnd(s, m), '\n') == CountChar(s, '\n')
    decreases |s|
  {
    if s != [] {
      if OccursAt(s, m, 0) {
        assert s[0] == m[0];
        CountCharSkip(s, LineEnd(s), '\n');
        StripKeepsLineFeeds(s[LineEnd(s)..], m);
      } else {
        CountCharCons(s[0], StripToLineEnd(s[1..], m), '\n');
        assert s == [s[0]] + s[1..];
        CountCharCons(s[0], s[1..], '\n');
        StripKeepsLineFeeds(s[1..], m);
      }
    }
  }

  /** Python comments: `re.sub(r'#.*', '', code)`. The marker is a single
      character, so no `#` is left at all, and the lines stay as many as
      they were. */
  function StripHashComments(s: string): (r: string)
    ensures '#' !in r
    ensures CountChar(r, '\n') == CountChar(s, '\n')
  {
    var r := StripToLineEnd(s, "#");
    StripRemovesMarker(s, "#");
    ContainsChar(r, '#');
    StripKeepsLineFeeds(s, "#");
    r
  }

  /** C-family line comments: `re.sub(r'//.*', '', code)`. A single `/`
      may survive (a division, a block comment opener); a `//` does not,
      and the lines stay as many as they were. */
  function StripLineComments(s: string): (r: string)
    ensures !Contains(r, "//")
    ensures CountChar(r, '\n') == CountChar(s, '\n')
  {
    StripRemovesMarker(s, "//");
    StripKeepsLineFeeds(s, "//");
    StripToLineEnd(s, "//")
  }

  /** The reference reading of a line-comment pass, one line at a time:
      every line is cut at its first marker. */
  function CutLines(lines: seq<string>, marker: string): (r: seq<string>)
    requires marker != []
    ensures |r| == |lines|
  {
    if lines == [] then []
    else [Before(lines[0], marker)] + CutLines(lines[1..], marker)
  }

  /** A marker at the start of a line removes the whole line, and the scan
      goes on at its line feed. */
  lemma {:induction false} StripMarkedLine(a: string, b: string, m: string)
    requires IsLineMarker(m) && '\n' !in a && OccursAt(a, m, 0)
    requires b == [] || b[0] == '\n'
    ensures StripToLineEnd(a + b, m) == StripToLineEnd(b, m)
  {
    var s := a + b;
    assert s[..|m|] == a[..|m|];
    LineEndBefore(a, b);
    assert s[|a|..] == b;
  }

  /** A line that does not start with the marker keeps its first character. */
  lemma {:induction false} StripUnmarkedLine(a: string, b: string, m: string)
    requires IsLineMarker(m) && a != [] && !OccursAt(a, m, 0)
    requires b == [] || b[0] == '\n'
    ensures StripToLineEnd(a + b, m) == [a[0]] + StripToLineEnd(a[1..] + b, m)
  {
    var s := a + b;
    assert !OccursAt(s, m, 0) by {
      if |m| == 2 && |a| == 1 {
        assert b == [] || b[0] != m[1];
      } else if |m| <= |a| {
        assert s[..|m|] == a[..|m|];
      }
    }
    assert s[0] == a[0];
    assert s[1..] == a[1..] + b;
  }

  /** A line followed by a line feed (or by nothing) is cut at its first
      marker, and the scan goes on after it unaffected. */
  lemma {:induction false} StripOneLine(a: string, b: string, m: string)
    requires IsLineMarker(m) && '\n' !in a
    requires b == [] || b[0] == '\n'
    ensures StripToLineEnd(a + b, m) == Before(a, m) + StripToLineEnd(b, m)
    decreases |a|
  {
    if a == [] {
      BeforeEmpty(m);
      assert a + b == b;
    } else if OccursAt(a, m, 0) {
      BeforeAtStart(a, m);
      StripMarkedLine(a, b, m);
    } else {
      assert '\n' !in a[1..] by {
        assert a == [a[0]] + a[1..];
      }
      StripOneLine(a[1..], b, m);
      StripOneLineStep(a, b, m);
    }
  }

  lemma {:induction false} StripOneLineStep(a: string, b: string, m: string)
    requires IsLineMarker(m) && a != [] && !OccursAt(a, m, 0)
    requires b == [] || b[0] == '\n'
    requires StripToLineEnd(a[1..] + b, m) == Before(a[1..], m) + StripToLineEnd(b, m)
    ensures StripToLineEnd(a + b, m) == Before(a, m) + StripToLineEnd(b, m)
  {
    BeforeCons(a, m);
    StripUnmarkedLine(a, b, m);
    ConsAppend(a[0], Before(a[1..], m), StripToLineEnd(b, m));
  }

  /** A line-comment pass is the per-line cut: split into lines, cut every
      line at its first marker, join the lines again. */
  lemma {:induction false} StripToLineEndPerLine(s: string, m: string)
    requires IsLineMarker(m)
    ensures StripToLineEnd(s, m) == JoinLines(CutLines(Lines(s), m))
    decreases |s|
  {
    var e := LineEnd(s);
    if e == |s| {
      AppendEmpty(s);
      assert s[..e] == s;
      StripOneLine(s, [], m);
      assert Lines(s) == [s];
      CutLinesCons(s, [], m);
    } else {
      var head, tail := s[..e], s[e + 1..];
      var cut := CutLines(Lines(tail), m);
      SplitAround(s, e);
      StripOneLine(head, ['\n'] + tail, m);
      StripLineFeed(tail, m);
      StripToLineEndPerLine(tail, m);
      LinesStep(s);
      CutLinesCons(head, Lines(tail), m);
      JoinStep(Before(head, m), cut, "\n");
      AppendAssoc(Before(head, m), "\n", JoinLines(cut));
    }
  }

  /** A line feed is copied and the scan goes on after it. */
  lemma {:induction false} StripLineFeed(t: string, m: string)
    requires IsLineMarker(m)
    ensures StripToLineEnd(['\n'] + t, m) == ['\n'] + StripToLineEnd(t, m)
  {
    assert !OccursAt(['\n'] + t, m, 0);
    assert (['\n'] + t)[1..] == t;
  }

  lemma {:induction false} CutLinesCons(line: string, rest: seq<string>, m: string)
    requires m != []
    ensures CutLines([line] + rest, m) == [Before(line, m)] + CutLines(rest, m)
  {
    assert ([line] + rest)[1..] == rest;
  }

  // The non-greedy, dot-all block-comment substitution of the pipeline:
  // scanning left to right, an opener "/*" with a terminator "*/" after it
  // (not sharing its star) is deleted together with everything up to and
  // including the first such terminator. An opener with no terminator after
  // it stays, as does everything else.
  function StripBlockComments(s: string): (r: string)
    decreases |s|
  {
    if |s| < 2 then s
    else if s[0] == '/' && s[1] == '*' then
      match Find(s[2..], "*/")
      case Some(k) => StripBlockComments(s[k + 4..])
      case None => [s[0]] + StripBlockComments(s[1..])
    else [s[0]] + StripBlockComments(s[1..])
  }

  /** Text without an opener is copied through, and the scan resumes
      unaffected after it as long as the next character cannot complete an
      opener with its last '/'. */
  lemma {:induction false} BlockCopyPrefix(p: string, x: string)
    requires !Contains(p, "/*")
    requires x == [] || x[0] != '*'
    ensures StripBlockComments(p + x) == p + StripBlockComments(x)
    decreases |p|
  {
    if p == [] {
      AppendEmpty(x);
      AppendEmpty(StripBlockComments(x));
    } else {
      ConsSplit(p);
      ContainsCons(p[0], p[1..], "/*");
      BlockCopyChar(p, x);
      BlockCopyPrefix(p[1..], x);
      ConsAppend(p[0], p[1..], StripBlockComments(x));
    }
  }

  /** One step of `BlockCopyPrefix`: the first character of an opener-free
      text is copied. */
  lemma {:induction false} BlockCopyChar(p: string, x: string)
    requires p != [] && !OccursAt(p, "/*", 0)
    requires x == [] || x[0] != '*'
    ensures StripBlockComments(p + x) == [p[0]] + StripBlockComments(p[1..] + x)
  {
    var s := p + x;
    assert s[1..] == p[1..] + x;
    if |s| < 2 {
      assert x == [] && s == p && p[1..] + x == [];
    } else {
      assert !(s[0] == '/' && s[1] == '*') by {
        if |p| >= 2 {
          assert s[..2] == p[..2];
        }
      }
    }
  }

  // A comment opened by "/*" is closed by the first "*/" after it.
  lemma {:induction false} BlockFirstTerminator(b: string, c: string)
    requires !Contains(b, "*/")
    ensures StripBlockComments("/*" + b + "*/" + c) == StripBlockComments(c)
  {
    CommentSlices(b, c);
    FindAfterFree(b, "*/", c);
  }

  lemma {:induction false} CommentSlices(b: string, c: string)
    ensures var s := "/*" + b + "*/" + c;
      |s| >= 2 && s[0] == '/' && s[1] == '*' && s[2..] == b + "*/" + c && s[|b| + 4..] == c
  {
  }

  /** The text before the first opener is kept, the comment up to its first
      terminator is deleted, and the scan goes on after it. */
  lemma {:induction false} BlockCommentRemoved(p: string, b: string, c: string)
    requires !Contains(p, "/*") && !Contains(b, "*/")
    ensures StripBlockComments(p + "/*" + b + "*/" + c) == p + StripBlockComments(c)
  {
    var x := "/*" + b + "*/" + c;
    CommentAssoc(p, b, c);
    BlockCopyPrefix(p, x);
    BlockFirstTerminator(b, c);
  }

  lemma {:induction false} CommentAssoc(p: string, b: string, c: string)
    ensures p + "/*" + b + "*/" + c == p + ("/*" + b + "*/" + c)
    ensures ("/*" + b + "*/" + c)[0] == '/'
  {
  }

  /** Without a terminator anywhere, nothing is deleted: an unclosed comment
      stays in the text. */
  lemma {:induction false} BlockUnclosedKept(s: string)
    requires !Contains(s, "*/")
    ensures StripBlockComments(s) == s
    decreases |s|
  {
    if |s| >= 2 {
      assert s == [s[0]] + s[1..];
      ContainsCons(s[0], s[1..], "*/");
      assert s[1..] == [s[1]] + s[2..];
      ContainsCons(s[1], s[2..], "*/");
      BlockUnclosedKept(s[1..]);
    }
  }

  /** Text without an opener is left as it is. */
  lemma {:induction false} BlockWithoutOpener(s: string)
    requires !Contains(s, "/*")
    ensures StripBlockComments(s) == s
  {
    BlockCopyPrefix(s, []);
    assert s + [] == s;
  }

  /** `line.strip()` is non-empty. */
  predicate NotBlank(line: string) {
    Strip(line) != []
  }

  /** The lines that are not blank, in order. */
  function NonBlank(lines: seq<string>): (r: seq<string>)
    ensures |r| <= |lines|
  {
    if lines == [] then []
    else (if NotBlank(lines[0]) then [lines[0]] else []) + NonBlank(lines[1..])
  }

  /** A line is kept iff it is one of the lines and is not blank. */
  lemma {:induction false} NonBlankExact(lines: seq<string>)
    ensures forall l :: l in NonBlank(lines) <==> l in lines && NotBlank(l)
  {
    if lines != [] {
      var head := if NotBlank(lines[0]) then [lines[0]] else [];
      NonBlankExact(lines[1..]);
      ConsSplit(lines);
      assert NonBlank(lines) == head + NonBlank(lines[1..]);
      forall l ensures l in NonBlank(lines) <==> l in lines && NotBlank(l) {
        assert l in lines <==> l == lines[0] || l in lines[1..];
      }
    }
  }

  /** The filter works piece by piece, so it keeps the order of the lines
      and every repetition of a kept line. */
  lemma {:induction false} NonBlankAppend(a: seq<string>, b: seq<string>)
    ensures NonBlank(a + b) == NonBlank(a) + NonBlank(b)
    decreases |a|
  {
    if a != [] {
      assert (a + b)[0] == a[0];
      assert (a + b)[1..] == a[1..] + b;
      NonBlankAppend(a[1..], b);
    } else {
      assert a + b == b;
    }
  }

  /** Lines that are all non-blank are kept as they are. */
  lemma {:induction false} NonBlankKeepsAll(lines: seq<string>)
    requires forall i :: 0 <= i < |lines| ==> NotBlank(lines[i])
    ensures NonBlank(lines) == lines
  {
    if lines != [] {
      forall i | 0 <= i < |lines| - 1 ensures NotBlank(lines[1..][i]) {
        assert lines[1..][i] == lines[i + 1];
      }
      NonBlankKeepsAll(lines[1..]);
      ConsSplit(lines);
    }
  }

  /** The characters `str.splitlines` breaks at. "\r\n" counts as one
      break there; splitting at each of its two characters instead only adds
      an empty piece, which the blank-line filter drops. */
  predicate IsLineBreak(c: char) {
    || c == '\n' || c == '\r' || c == '\U{000B}' || c == '\U{000C}'
    || c == '\U{001C}' || c == '\U{001D}' || c == '\U{001E}'
    || c == '\U{0085}' || c == '\U{2028}' || c == '\U{2029}'
  }

  /** Every line break is whitespace, so a piece made only of breaks, or an
      empty piece, is blank and the filter drops it. */
  lemma {:induction false} BreaksAreSpace(c: char)
    requires IsLineBreak(c)
    ensures IsPySpace(c)
  {
  }

  /** Text with no line break at all. */
  predicate NoBreak(s: string) {
    forall i :: 0 <= i < |s| ==> !IsLineBreak(s[i])
  }

  /** Text with no line break other than '\n'. */
  predicate OnlyLineFeeds(s: string) {
    forall i :: 0 <= i < |s| ==> IsLineBreak(s[i]) ==> s[i] == '\n'
  }

  /** Every line break becomes '\n', so that splitting at '\n' splits where
      `splitlines` does. */
  function UnifyBreaks(s: string): (r: string)
    ensures |r| == |s| && OnlyLineFeeds(r)
    ensures forall i :: 0 <= i < |s| && !IsLineBreak(s[i]) ==> r[i] == s[i]
  {
    seq(|s|, i requires 0 <= i < |s| => if IsLineBreak(s[i]) then '\n' else s[i])
  }

  /** A character of the unified text is a line feed or a character of the
      original that is not a break. */
  lemma {:induction false} UnifyBreaksChars(s: string, c: char)
    requires c in UnifyBreaks(s)
    ensures c == '\n' || (!IsLineBreak(c) && c in s)
  {
    var u := UnifyBreaks(s);
    var k :| 0 <= k < |u| && u[k] == c;
    if !IsLineBreak(s[k]) {
      assert s[k] == c;
    }
  }

  /** Text that already has only line feeds is left as it is. */
  lemma {:induction false} UnifyBreaksKeeps(s: string)
    requires OnlyLineFeeds(s)
    ensures UnifyBreaks(s) == s
  {
    var u := UnifyBreaks(s);
    forall i | 0 <= i < |s| ensures u[i] == s[i] {
      if IsLineBreak(s[i]) {
        assert s[i] == '\n';
      }
    }
  }

  /** `'\n'.join(line for line in s.splitlines() if line.strip())`. */
  function RemoveEmptyLines(s: string): (r: string)
  {
    JoinLines(NonBlank(Lines(UnifyBreaks(s))))
  }

  /** The kept lines contain no line feed, so they are exactly the lines of
      the result. */
  lemma {:induction false} LinesOfRemoveEmptyLines(s: string)
    ensures RemoveEmptyLines(s) == [] || Lines(RemoveEmptyLines(s)) == NonBlank(Lines(UnifyBreaks(s)))
    ensures NonBlank(Lines(UnifyBreaks(s))) == [] ==> RemoveEmptyLines(s) == []
  {
    var u := UnifyBreaks(s);
    var kept := NonBlank(Lines(u));
    if kept != [] {
      LinesShape(u);
      NonBlankExact(Lines(u));
      forall i | 0 <= i < |kept| ensures '\n' !in kept[i] {
        assert kept[i] in kept;
      }
      LinesOfJoin(kept);
    }
  }

  /** Every line of the result is non-blank: no blank line survives. */
  lemma {:induction false} NoBlankLineLeft(s: string)
    ensures RemoveEmptyLines(s) == [] || forall i :: 0 <= i < |Lines(RemoveEmptyLines(s))| ==> NotBlank(Lines(RemoveEmptyLines(s))[i])
  {
    LinesOfRemoveEmptyLines(s);
    var kept := NonBlank(Lines(UnifyBreaks(s)));
    NonBlankExact(Lines(UnifyBreaks(s)));
    forall i | 0 <= i < |kept| ensures NotBlank(kept[i]) {
      assert kept[i] in kept;
    }
  }

  /** Every character of the result is a line feed or a character of the
      input that is not a line break. */
  lemma {:induction false} RemoveEmptyLinesChars(s: string, c: char)
    requires c in RemoveEmptyLines(s)
    ensures c == '\n' || (!IsLineBreak(c) && c in s)
  {
    var u := UnifyBreaks(s);
    var kept := NonBlank(Lines(u));
    JoinChars(kept, "\n", c);
    if c !in "\n" {
      var i :| 0 <= i < |kept| && c in kept[i];
      NonBlankExact(Lines(u));
      assert kept[i] in Lines(u);
      var j :| 0 <= j < |Lines(u)| && Lines(u)[j] == kept[i];
      LinesChars(u, j, c);
      UnifyBreaksChars(s, c);
    }
  }

  /** Removing blank lines twice is removing them once. */
  lemma {:induction false} RemoveEmptyLinesIdempotent(s: string)
    ensures RemoveEmptyLines(RemoveEmptyLines(s)) == RemoveEmptyLines(s)
  {
    var r := RemoveEmptyLines(s);
    forall i | 0 <= i < |r| ensures IsLineBreak(r[i]) ==> r[i] == '\n' {
      RemoveEmptyLinesChars(s, r[i]);
    }
    UnifyBreaksKeeps(r);
    LinesOfRemoveEmptyLines(s);
    if r == [] {
      LinesSingle(r);
      assert Strip(r) == [];
      assert NonBlank([r]) == [];
    } else {
      NoBlankLineLeft(s);
      NonBlankKeepsAll(Lines(r));
    }
  }

  /** `remove_comments_and_empty_lines(code, ext)`: `#` comments for ".py",
      and for every other extension `//` comments then block comments; then
      blank lines are dropped. */
  function RemoveCommentsAndEmptyLines(code: string, ext: string): (r: string)
  {
    var stripped := if ext == ".py" then StripHashComments(code) else StripBlockComments(StripLineComments(code));
    RemoveEmptyLines(stripped)
  }

  /** After Python comment removal no `#` is left, even one inside a string
      literal: the pass does not know about strings. */
  lemma {:induction false} PythonHasNoHash(code: string)
    ensures '#' !in RemoveCommentsAndEmptyLines(code, ".py")
  {
    var stripped := StripHashComments(code);
    ContainsChar(stripped, '#');
    if '#' in RemoveCommentsAndEmptyLines(code, ".py") {
      RemoveEmptyLinesChars(stripped, '#');
    }
  }

  /** No line of the result is blank, whatever the extension. */
  lemma {:induction false} CleanedHasNoBlankLine(code: string, ext: string)
    ensures var r := RemoveCommentsAndEmptyLines(code, ext);
      r == [] || forall i :: 0 <= i < |Lines(r)| ==> NotBlank(Lines(r)[i])
  {
    var stripped := if ext == ".py" then StripHashComments(code) else StripBlockComments(StripLineComments(code));
    NoBlankLineLeft(stripped);
  }

  /** Cleaning Python code twice is cleaning it once. */
  lemma {:induction false} PythonCleanIdempotent(code: string)
    ensures RemoveCommentsAndEmptyLines(RemoveCommentsAndEmptyLines(code, ".py"), ".py") == RemoveCommentsAndEmptyLines(code, ".py")
  {
    var r := RemoveCommentsAndEmptyLines(code, ".py");
    PythonHasNoHash(code);
    ContainsChar(r, '#');
    StripWithoutMarker(r, "#");
    RemoveEmptyLinesIdempotent(StripHashComments(code));
  }

  // Line comments are removed before block comments, so a `//` inside a
  // block comment cuts its line and takes the terminator with it: the
  // comment opener survives together with the text before the `//`.
  lemma {:induction false} LineMarkerInsideBlockComment(x: string, y: string)
    requires '/' !in x && '*' !in x && NoBreak(x) && '\n' !in y
    requires NotBlank("/*" + x)
    ensures RemoveCommentsAndEmptyLines("/*" + x + "//" + y, ".c") == "/*" + x
  {
    OpenerFacts(x);
    LineCommentCutsBlock(x, y);
    BlockUnclosedKept("/*" + x);
    SingleLineKept("/*" + x);
  }

  lemma {:induction false} OpenerFacts(x: string)
    requires '/' !in x && '*' !in x && NoBreak(x)
    ensures !Contains("/*" + x, "*/") && NoBreak("/*" + x) && '\n' !in x
  {
    var kept := "/*" + x;
    forall j | 0 <= j <= |kept| - 2 ensures !OccursAt(kept, "*/", j) {
      if j >= 2 {
        assert kept[j] == x[j - 2];
      } else if j == 1 && |x| > 0 {
        assert kept[2] == x[0];
      }
    }
    forall j | 0 <= j < |kept| ensures !IsLineBreak(kept[j]) {
      if j >= 2 {
        assert kept[j] == x[j - 2];
      }
    }
    forall j | 0 <= j < |x| ensures x[j] != '\n' {
      assert !IsLineBreak(x[j]);
    }
  }

  lemma {:induction false} LineCommentCutsBlock(x: string, y: string)
    requires '/' !in x && '\n' !in x && '\n' !in y
    ensures StripLineComments("/*" + x + "//" + y) == "/*" + x
  {
    var s := "/*" + x + "//" + y;
    var n := |x| + 2;
    OpenerLineSlices(x, y);
    assert OccursAt(s, "//", n);
    forall j | 0 <= j < n ensures !OccursAt(s, "//", j) {
      if j >= 2 {
        assert s[j] == x[j - 2];
      }
    }
    FindAt(s, "//", n);
    AppendEmpty(s);
    StripOneLine(s, [], "//");
  }

  lemma {:induction false} OpenerLineSlices(x: string, y: string)
    requires '\n' !in x && '\n' !in y
    ensures var s := "/*" + x + "//" + y;
      s[..|x| + 2] == "/*" + x && s[|x| + 2..|x| + 4] == "//" && s[0] == '/' && s[1] == '*'
      && (forall j :: 2 <= j < |x| + 2 ==> s[j] == x[j - 2]) && '\n' !in s
  {
    var s := "/*" + x + "//" + y;
    forall j | 0 <= j < |s| ensures s[j] != '\n' {
      if 2 <= j < |x| + 2 {
        assert s[j] == x[j - 2];
      } else if j >= |x| + 4 {
        assert s[j] == y[j - |x| - 4];
      }
    }
  }

  /** A single non-blank line without breaks survives blank-line removal
      unchanged. */
  lemma {:induction false} SingleLineKept(line: string)
    requires NoBreak(line) && NotBlank(line)
    ensures RemoveEmptyLines(line) == line
  {
    UnifyBreaksKeeps(line);
    assert '\n' !in line by {
      forall i | 0 <= i < |line| ensures line[i] != '\n' {
        assert !IsLineBreak(line[i]);
      }
    }
    LinesSingle(line);
    assert [line][1..] == [];
    assert NonBlank([line]) == [line];
  }
}
