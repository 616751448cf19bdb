/** Identifier canonicalisation of the offline similarity pipeline: function
    names after `def` (Python) or after a type or modifier keyword (C, C++,
    Java) become `func`, and every identifier directly followed by `=`
    (blanks allowed in between) becomes `var =`. The patterns have no word
    boundaries, so they also fire inside longer words ("undef x" becomes
    "undef func"); that is the behaviour modelled. */
module Names {
  import opened Text
  import opened Patterns

  /** `[a-zA-Z_][a-zA-Z0-9_]*`. */
  const IdentSegs: seq<Segment> := [Class(IsIdentStart), Run(IsIdentChar, 0)]

  /** `\s+[a-zA-Z_][a-zA-Z0-9_]*`: `\s` is Python's whitespace. */
  const SpaceThenIdent: seq<Segment> := [Run(IsPySpace, 1)] + IdentSegs

  /** `def\s+([a-zA-Z_][a-zA-Z0-9_]*)` replaced by "def func". */
  const DefPattern: Pattern := Pattern([Word(["def"])] + SpaceThenIdent, Fixed("def func"))

  /** The type and modifier keywords of the C-family pattern, in the order
      the alternation tries them. */
  const CKeywords: seq<string> := ["int", "void", "float", "double", "char", "public", "private", "static"]

  /** `(int|...|static)\s+([a-zA-Z_][a-zA-Z0-9_]*)` replaced by `\1 func`:
      the keyword is kept. */
  const DeclPattern: Pattern := Pattern([Word(CKeywords)] + SpaceThenIdent, FirstThen(" func"))

  /** `([a-zA-Z_][a-zA-Z0-9_]*)\s*=` replaced by "var =". */
  const AssignPattern: Pattern := Pattern(IdentSegs + [Run(IsPySpace, 0), Word(["="])], Fixed("var ="))

  /** The extensions with a C-family branch. */
  const CFamily: seq<string> := [".c", ".cpp", ".java"]

  /** An identifier as the patterns read one. */
  predicate IsIdent(id: string) {
    id != [] && IsIdentStart(id[0]) && forall i :: 1 <= i < |id| ==> IsIdentChar(id[i])
  }

  /** A non-empty run of whitespace, as `\s+` matches one. */
  predicate IsBlank(w: string) {
    w != [] && AllSpace(w, IsPySpace)
  }

  /** `p` ends in `kw` followed by nothing but whitespace, so a match of
      `kw\s+name` starting there would take its name from whatever follows
      `p`. */
  predicate OpenKeyword(p: string, kw: string) {
    exists k | 0 <= k <= |p| :: OccursAt(p, kw, k) && AllSpace(p[k + |kw|..], IsPySpace)
  }

  /** Text after which a `def` is renamed on its own: empty, or ending in a
      character that is not an identifier character (a line break, an
      indentation, an operator) and not in an open `def`. */
  predicate DefBoundary(p: string) {
    p == [] || (!IsIdentChar(p[|p| - 1]) && !OpenKeyword(p, "def"))
  }

  /** The same for declarations: no identifier character and no open type
      or modifier keyword at the end. */
  predicate DeclBoundary(p: string) {
    p == [] || (!IsIdentChar(p[|p| - 1]) && forall i :: 0 <= i < |CKeywords| ==> !OpenKeyword(p, CKeywords[i]))
  }

  lemma {:induction false} PatternsConsume()
    ensures Consuming(DefPattern.segs) && Consuming(DeclPattern.segs) && Consuming(AssignPattern.segs)
  {
    assert DefPattern.segs[0] == Word(["def"]);
    assert DeclPattern.segs[0] == Word(CKeywords);
    assert AssignPattern.segs[0] == Class(IsIdentStart);
  }

  /** `re.sub(r'def\s+([a-zA-Z_][a-zA-Z0-9_]*)', 'def func', code)`. */
  function RenameDefs(code: string): string {
    PatternsConsume();
    Rewrite(DefPattern, code)
  }

  /** The C-family declaration substitution of the pipeline. */
  function RenameDecls(code: string): string {
    PatternsConsume();
    Rewrite(DeclPattern, code)
  }

  /** `re.sub(r'([a-zA-Z_][a-zA-Z0-9_]*)\s*=', 'var =', code)`. */
  function RenameAssignments(code: string): string {
    PatternsConsume();
    Rewrite(AssignPattern, code)
  }

  /** `normalize_names(code, ext)`: function names first, then assignments,
      for Python and for the C family; any other extension is left alone. */
  function NormalizeNames(code: string, ext: string): (r: string)
    ensures ext != ".py" && ext !in CFamily ==> r == code
  {
    if ext == ".py" then RenameAssignments(RenameDefs(code))
    else if ext in CFamily then RenameAssignments(RenameDecls(code))
    else code
  }

  lemma {:induction false} IdentSlices(id: string, q: string)
    requires id != []
    ensures (id + q)[0] == id[0] && (id + q)[1..] == id[1..] + q && (id[1..] + q)[|id| - 1..] == q
  {
  }

  /** An identifier followed by a non-identifier character, or by nothing,
      is matched whole. */
  lemma {:induction false} IdentMatch(id: string, q: string)
    requires IsIdent(id) && (q == [] || !IsIdentChar(q[0]))
    ensures Match(IdentSegs, id + q) == Some(|id|)
  {
    IdentSlices(id, q);
    forall i | 0 <= i < |id| - 1 ensures IsIdentChar(id[1..][i]) {
      assert id[1..][i] == id[i + 1];
    }
    RunLengthExact(id[1..], q, IsIdentChar);
    assert SegMatch(IdentSegs[1], id[1..] + q) == Some(|id| - 1);
    assert Match(IdentSegs[1..], id[1..] + q) == Some(|id| - 1) by {
      assert IdentSegs[1..][1..] == [];
    }
    assert SegMatch(IdentSegs[0], id + q) == Some(1);
  }

  lemma {:induction false} BlankSlices(w: string, t: string)
    ensures (w + t)[|w|..] == t
  {
  }

  /** Whitespace then an identifier is matched whole. */
  lemma {:induction false} SpaceIdentMatch(w: string, id: string, q: string)
    requires IsBlank(w) && IsIdent(id) && (q == [] || !IsIdentChar(q[0]))
    ensures Match(SpaceThenIdent, w + (id + q)) == Some(|w| + |id|)
  {
    assert !IsPySpace(id[0]);
    assert (id + q)[0] == id[0];
    RunLengthExact(w, id + q, IsPySpace);
    BlankSlices(w, id + q);
    IdentMatch(id, q);
    assert SpaceThenIdent[1..] == IdentSegs;
    assert SegMatch(SpaceThenIdent[0], w + (id + q)) == Some(|w|);
  }

  lemma {:induction false} HeadSlices(h: string, w: string, id: string, q: string)
    ensures h + w + id + q == h + (w + (id + q))
    ensures (h + (w + (id + q)))[|h|..] == w + (id + q)
    ensures (h + (w + (id + q)))[|h| + |w| + |id|..] == q
    ensures (h + (w + (id + q)))[..|h|] == h
  {
  }

  /** `def`, whitespace and an identifier followed by a non-identifier
      character are matched whole. */
  lemma {:induction false} DefMatch(w: string, id: string, q: string)
    requires IsBlank(w) && IsIdent(id) && (q == [] || !IsIdentChar(q[0]))
    ensures Match(DefPattern.segs, "def" + w + id + q) == Some(3 + |w| + |id|)
  {
    var s := "def" + (w + (id + q));
    HeadSlices("def", w, id, q);
    assert OccursAt(s, "def", 0);
    assert SegMatch(DefPattern.segs[0], s) == Some(3);
    assert DefPattern.segs[1..] == SpaceThenIdent;
    SpaceIdentMatch(w, id, q);
  }

  lemma {:induction false} IdentBarrier(c: char)
    requires !IsIdentChar(c)
    ensures !Inside(IdentSegs, c)
  {
    assert IdentSegs == [Class(IsIdentStart), Run(IsIdentChar, 0)];
    NotInside(IdentSegs, c);
  }

  /** Whitespace then a name, read from a text that holds a non-blank
      character and ends in a non-identifier character, is decided within
      that text. */
  lemma {:induction false} SpaceIdentSame(t: string, x: string)
    requires t != [] && !IsIdentChar(t[|t| - 1]) && !AllSpace(t, IsPySpace)
    ensures Match(SpaceThenIdent, t + x) == Match(SpaceThenIdent, t)
  {
    RunLengthStops(t, x, IsPySpace);
    var n := RunLength(t, IsPySpace);
    assert SpaceThenIdent[0] == Run(IsPySpace, 1) && SpaceThenIdent[1..] == IdentSegs;
    assert t[n..] != [] && t[n..][|t[n..]| - 1] == t[|t| - 1];
    IdentBarrier(t[|t| - 1]);
    MatchLocal(IdentSegs, t[n..], x);
    MatchSame(SpaceThenIdent, t, x);
  }

  /** A keyword pattern read from a text that ends in a non-identifier
      character is decided within that text, unless the keyword is followed
      by whitespace up to the end. */
  lemma {:induction false} KeywordSame(alternatives: seq<string>, t: string, x: string)
    requires t != [] && !IsIdentChar(t[|t| - 1])
    requires forall i :: 0 <= i < |alternatives| ==> t[|t| - 1] !in alternatives[i]
    requires FirstWord(alternatives, t).Some? ==> !AllSpace(t[FirstWord(alternatives, t).value..], IsPySpace)
    ensures Match([Word(alternatives)] + SpaceThenIdent, t + x) == Match([Word(alternatives)] + SpaceThenIdent, t)
  {
    var segs := [Word(alternatives)] + SpaceThenIdent;
    assert segs[0] == Word(alternatives) && segs[1..] == SpaceThenIdent;
    FirstWordLocal(alternatives, t, x);
    if FirstWord(alternatives, t).Some? {
      var n := FirstWord(alternatives, t).value;
      assert t[n..][|t[n..]| - 1] == t[|t| - 1];
      SpaceIdentSame(t[n..], x);
    }
    MatchSame(segs, t, x);
  }

  /** A keyword alternative that starts `p[k..]` occurs in `p` at `k`. */
  lemma {:induction false} KeywordAt(alternatives: seq<string>, p: string, k: nat)
    returns (i: nat)
    requires k < |p| && FirstWord(alternatives, p[k..]).Some?
    ensures i < |alternatives| && OccursAt(p, alternatives[i], k)
    ensures p[k..][FirstWord(alternatives, p[k..]).value..] == p[k + |alternatives[i]|..]
  {
    i := FirstWordFound(alternatives, p[k..]);
    assert p[k..][..|alternatives[i]|] == p[k..k + |alternatives[i]|];
  }

  /** After a `def` boundary no match of the `def` pattern that starts in
      the text depends on what follows it. */
  lemma {:induction false} DefSettled(p: string, x: string)
    requires DefBoundary(p)
    ensures Settled(DefPattern.segs, p, x)
  {
    forall k | 0 <= k < |p| ensures SettledAt(DefPattern.segs, p, x, k) {
      var t := p[k..];
      assert t[|t| - 1] == p[|p| - 1];
      assert p[|p| - 1] !in "def";
      if FirstWord(["def"], t).Some? {
        var i := KeywordAt(["def"], p, k);
        assert !AllSpace(p[k + 3..], IsPySpace);
      }
      KeywordSame(["def"], t, x);
    }
  }

  /** A `def` at the front is replaced by "def func", and the scan resumes
      after the name. */
  lemma {:induction false} DefFront(w: string, id: string, q: string)
    requires IsBlank(w) && IsIdent(id) && (q == [] || !IsIdentChar(q[0]))
    ensures RenameDefs("def" + w + id + q) == "def func" + RenameDefs(q)
  {
    PatternsConsume();
    DefMatch(w, id, q);
    DeclSlices("def", w, id, q);
    RewriteMatch(DefPattern, "def" + w + id + q, 3 + |w| + |id|);
  }

  /** The function name after `def` becomes `func`: the text before (up to
      a line break, an indentation or any other non-identifier character)
      and the text after are rewritten on their own. */
  lemma {:induction false} DefRenamed(p: string, w: string, id: string, q: string)
    requires DefBoundary(p)
    requires IsBlank(w) && IsIdent(id) && (q == [] || !IsIdentChar(q[0]))
    ensures RenameDefs(p + "def" + w + id + q) == RenameDefs(p) + "def func" + RenameDefs(q)
  {
    PatternsConsume();
    AppendAssoc4(p, "def", w, id, q);
    DefSettled(p, "def" + w + id + q);
    RewriteAppendSettled(DefPattern, p, "def" + w + id + q);
    DefFront(w, id, q);
    AppendAssoc(RenameDefs(p), "def func", RenameDefs(q));
  }

  lemma {:induction false} Regroup(a: string, b: string, c: string, d: string)
    ensures a + b + c + d == a + (b + c + d)
  {
  }

  lemma {:induction false} AppendAssoc4(p: string, a: string, b: string, c: string, d: string)
    ensures p + a + b + c + d == p + (a + b + c + d)
  {
  }

  /** Two programs that differ only in the name of one delimited `def`
      normalise identically. */
  lemma {:induction false} DefNameIrrelevant(p: string, w: string, id1: string, id2: string, q: string)
    requires DefBoundary(p)
    requires IsBlank(w) && IsIdent(id1) && IsIdent(id2) && (q == [] || !IsIdentChar(q[0]))
    ensures NormalizeNames(p + "def" + w + id1 + q, ".py") == NormalizeNames(p + "def" + w + id2 + q, ".py")
  {
    DefRenamed(p, w, id1, q);
    DefRenamed(p, w, id2, q);
  }

  /** Every alternative of the keyword list differs from every other one in
      its first two characters, so at most one of them starts any text. */
  lemma {:induction false} KeywordsDistinct(i: int, j: int)
    requires 0 <= i < |CKeywords| && 0 <= j < |CKeywords| && i != j
    ensures |CKeywords[i]| >= 2 && |CKeywords[j]| >= 2
    ensures CKeywords[i][0] != CKeywords[j][0] || CKeywords[i][1] != CKeywords[j][1]
  {
  }

  lemma {:induction false} FirstWordAt(alternatives: seq<string>, s: string, i: int)
    requires 0 <= i < |alternatives| && OccursAt(s, alternatives[i], 0)
    requires forall j :: 0 <= j < i ==> !OccursAt(s, alternatives[j], 0)
    ensures FirstWord(alternatives, s) == Some(|alternatives[i]|)
    decreases i
  {
    if i > 0 {
      FirstWordAt(alternatives[1..], s, i - 1);
    }
  }

  /** A keyword at the front is recognised as itself. */
  lemma {:induction false} KeywordMatch(i: int, t: string)
    requires 0 <= i < |CKeywords|
    ensures FirstWord(CKeywords, CKeywords[i] + t) == Some(|CKeywords[i]|)
  {
    var kw := CKeywords[i];
    var s := kw + t;
    assert s[..|kw|] == kw;
    forall j | 0 <= j < i ensures !OccursAt(s, CKeywords[j], 0) {
      KeywordsDistinct(i, j);
      assert s[0] == kw[0] && s[1] == kw[1];
    }
    FirstWordAt(CKeywords, s, i);
  }

  /** A keyword, whitespace and an identifier followed by a non-identifier
      character are matched whole. */
  lemma {:induction false} DeclMatch(i: int, w: string, id: string, q: string)
    requires 0 <= i < |CKeywords|
    requires IsBlank(w) && IsIdent(id) && (q == [] || !IsIdentChar(q[0]))
    ensures Match(DeclPattern.segs, CKeywords[i] + w + id + q) == Some(|CKeywords[i]| + |w| + |id|)
  {
    var kw := CKeywords[i];
    var s := kw + (w + (id + q));
    HeadSlices(kw, w, id, q);
    KeywordMatch(i, w + (id + q));
    assert SegMatch(DeclPattern.segs[0], s) == Some(|kw|);
    assert DeclPattern.segs[1..] == SpaceThenIdent;
    SpaceIdentMatch(w, id, q);
  }

  /** The replacement keeps the keyword the match starts with. */
  lemma {:induction false} DeclReplace(i: int, t: string)
    requires 0 <= i < |CKeywords|
    ensures Replace(DeclPattern, CKeywords[i] + t) == CKeywords[i] + " func"
  {
    PatternsConsume();
    KeywordMatch(i, t);
    assert (CKeywords[i] + t)[..|CKeywords[i]|] == CKeywords[i];
  }

  /** Keywords are made of letters only. */
  lemma {:induction false} KeywordLetters(c: char)
    requires !IsIdentChar(c)
    ensures forall i :: 0 <= i < |CKeywords| ==> c !in CKeywords[i]
  {
    forall i | 0 <= i < |CKeywords| ensures c !in CKeywords[i] {
      assert forall k :: 0 <= k < |CKeywords[i]| ==> 'a' <= CKeywords[i][k] <= 'z';
    }
  }

  /** After a declaration boundary no match of the declaration pattern
      that starts in the text depends on what follows it. */
  lemma {:induction false} DeclSettled(p: string, x: string)
    requires DeclBoundary(p)
    ensures Settled(DeclPattern.segs, p, x)
  {
    forall k | 0 <= k < |p| ensures SettledAt(DeclPattern.segs, p, x, k) {
      var t := p[k..];
      assert t[|t| - 1] == p[|p| - 1];
      KeywordLetters(p[|p| - 1]);
      if FirstWord(CKeywords, t).Some? {
        var i := KeywordAt(CKeywords, p, k);
        assert !OpenKeyword(p, CKeywords[i]);
        assert !AllSpace(p[k + |CKeywords[i]|..], IsPySpace);
      }
      KeywordSame(CKeywords, t, x);
    }
  }

  lemma {:induction false} DeclSlices(kw: string, w: string, id: string, q: string)
    ensures (kw + w + id + q)[..|kw| + |w| + |id|] == kw + (w + id)
    ensures (kw + w + id + q)[|kw| + |w| + |id|..] == q
  {
  }

  /** A declaration at the front is replaced by its keyword and `func`, and
      the scan resumes after the name. */
  lemma {:induction false} DeclFront(i: int, w: string, id: string, q: string)
    requires 0 <= i < |CKeywords|
    requires IsBlank(w) && IsIdent(id) && (q == [] || !IsIdentChar(q[0]))
    ensures RenameDecls(CKeywords[i] + w + id + q) == CKeywords[i] + " func" + RenameDecls(q)
  {
    PatternsConsume();
    var kw := CKeywords[i];
    var n := |kw| + |w| + |id|;
    DeclMatch(i, w, id, q);
    DeclSlices(kw, w, id, q);
    RewriteMatch(DeclPattern, kw + w + id + q, n);
    DeclReplace(i, w + id);
  }

  /** The name after a C-family type or modifier keyword becomes `func` and
      the keyword is kept. */
  lemma {:induction false} DeclRenamed(p: string, i: int, w: string, id: string, q: string)
    requires DeclBoundary(p)
    requires 0 <= i < |CKeywords|
    requires IsBlank(w) && IsIdent(id) && (q == [] || !IsIdentChar(q[0]))
    ensures RenameDecls(p + CKeywords[i] + w + id + q) == RenameDecls(p) + CKeywords[i] + " func" + RenameDecls(q)
  {
    PatternsConsume();
    var kw := CKeywords[i];
    AppendAssoc4(p, kw, w, id, q);
    DeclSettled(p, kw + w + id + q);
    RewriteAppendSettled(DeclPattern, p, kw + w + id + q);
    DeclFront(i, w, id, q);
    Regroup(RenameDecls(p), kw, " func", RenameDecls(q));
  }

  /** Two C, C++ or Java files that differ only in the name of one
      delimited declaration normalise identically. */
  lemma {:induction false} DeclNameIrrelevant(p: string, i: int, w: string, id1: string, id2: string, q: string, ext: string)
    requires DeclBoundary(p) && 0 <= i < |CKeywords| && ext in CFamily
    requires IsBlank(w) && IsIdent(id1) && IsIdent(id2) && (q == [] || !IsIdentChar(q[0]))
    ensures NormalizeNames(p + CKeywords[i] + w + id1 + q, ext) == NormalizeNames(p + CKeywords[i] + w + id2 + q, ext)
  {
    DeclRenamed(p, i, w, id1, q);
    DeclRenamed(p, i, w, id2, q);
  }

  lemma {:induction false} AssignSlices(id: string, w: string, q: string)
    ensures id + w + "=" + q == id + (w + ("=" + q))
    ensures (id + (w + ("=" + q)))[|id|..] == w + ("=" + q)
    ensures (w + ("=" + q))[|w|..] == "=" + q
    ensures (id + (w + ("=" + q)))[|id| + |w| + 1..] == q
  {
  }

  /** Optional whitespace then `=` are matched whole. */
  lemma {:induction false} SpaceEqualsMatch(w: string, q: string)
    requires AllSpace(w, IsPySpace)
    ensures Match([Run(IsPySpace, 0), Word(["="])], w + ("=" + q)) == Some(|w| + 1)
  {
    var tail := [Run(IsPySpace, 0), Word(["="])];
    assert ("=" + q)[0] == '=';
    RunLengthExact(w, "=" + q, IsPySpace);
    assert (w + ("=" + q))[|w|..] == "=" + q;
    assert tail[1..] == [Word(["="])] && tail[1..][1..] == [];
    assert OccursAt("=" + q, "=", 0);
    assert Match(tail[1..], "=" + q) == Some(1);
  }

  /** An identifier, optional whitespace and `=` are matched whole. */
  lemma {:induction false} AssignMatch(id: string, w: string, q: string)
    requires IsIdent(id) && AllSpace(w, IsPySpace)
    ensures Match(AssignPattern.segs, id + w + "=" + q) == Some(|id| + |w| + 1)
  {
    AssignSegs();
    AssignMatchOn(AssignPattern.segs, id, w, q);
  }

  lemma {:induction false} AssignMatchOn(segs: seq<Segment>, id: string, w: string, q: string)
    requires IsIdent(id) && AllSpace(w, IsPySpace)
    requires |segs| == 4 && segs[..2] == IdentSegs && segs[2..] == [Run(IsPySpace, 0), Word(["="])]
    ensures Match(segs, id + w + "=" + q) == Some(|id| + |w| + 1)
  {
    var rest := w + ("=" + q);
    AssignSlices(id, w, q);
    AssignTail(segs, w, q);
    AssignHead(id, w, q);
    IdentPrefix(segs, id, rest);
  }

  lemma {:induction false} AssignTail(segs: seq<Segment>, w: string, q: string)
    requires AllSpace(w, IsPySpace)
    requires |segs| == 4 && segs[2..] == [Run(IsPySpace, 0), Word(["="])]
    ensures Match(segs[2..], w + ("=" + q)) == Some(|w| + 1)
  {
    SpaceEqualsMatch(w, q);
  }

  lemma {:induction false} AssignHead(id: string, w: string, q: string)
    requires IsIdent(id) && AllSpace(w, IsPySpace)
    ensures Match(IdentSegs, id + (w + ("=" + q))) == Some(|id|)
  {
    SpaceEqualsStart(w, q);
    IdentMatch(id, w + ("=" + q));
  }

  lemma {:induction false} AssignSegs()
    ensures |AssignPattern.segs| == 4
    ensures AssignPattern.segs[..2] == IdentSegs
    ensures AssignPattern.segs[2..] == [Run(IsPySpace, 0), Word(["="])]
  {
  }

  lemma {:induction false} SpaceEqualsStart(w: string, q: string)
    requires AllSpace(w, IsPySpace)
    ensures !IsIdentChar((w + ("=" + q))[0])
  {
    var rest := w + ("=" + q);
    if w != [] {
      assert rest[0] == w[0] && IsPySpace(w[0]);
    } else {
      assert rest[0] == '=';
    }
  }

  /** Matching a pattern that starts with an identifier: the identifier is
      consumed first, then the rest of the pattern. */
  lemma {:induction false} IdentPrefix(segs: seq<Segment>, id: string, rest: string)
    requires |segs| >= 2 && segs[..2] == IdentSegs
    requires Match(IdentSegs, id + rest) == Some(|id|) && id != []
    ensures Match(segs[2..], rest).Some? ==> Match(segs, id + rest) == Some(|id| + Match(segs[2..], rest).value)
  {
    var s := id + rest;
    assert segs[0] == IdentSegs[0] && segs[1] == IdentSegs[1];
    IdentSlices(id, rest);
    assert IdentSegs[1..][1..] == [];
    var n := RunLength(id[1..] + rest, IsIdentChar);
    assert SegMatch(segs[0], s) == Some(1);
    assert Match(IdentSegs[1..], s[1..]) == Some(n);
    assert n == |id| - 1;
    assert s[1..][n..] == rest;
    assert segs[1..][1..] == segs[2..];
  }

  /** Optional whitespace then `=`, read from any text followed by
      something that starts with an identifier, is decided within that
      text. */
  lemma {:induction false} SpaceEqualsSame(t: string, x: string)
    requires x != [] && IsIdentStart(x[0])
    ensures Match([Run(IsPySpace, 0), Word(["="])], t + x) == Match([Run(IsPySpace, 0), Word(["="])], t)
  {
    if AllSpace(t, IsPySpace) {
      BlankThenIdent(t, x);
    } else {
      SpaceThenOther(t, x);
    }
  }

  /** Whitespace up to the end of `t` runs on into `x`, but `x` starts
      with an identifier, not `=`: no match either way. */
  lemma {:induction false} BlankThenIdent(t: string, x: string)
    requires x != [] && IsIdentStart(x[0]) && AllSpace(t, IsPySpace)
    ensures Match([Run(IsPySpace, 0), Word(["="])], t + x) == None
    ensures Match([Run(IsPySpace, 0), Word(["="])], t) == None
  {
    var tail := [Run(IsPySpace, 0), Word(["="])];
    assert tail[0] == Run(IsPySpace, 0) && tail[1..] == [Word(["="])];
    assert !IsPySpace(x[0]) && x[0] != '=';
    RunLengthExact(t, x, IsPySpace);
    RunLengthExact(t, [], IsPySpace);
    assert t + [] == t && t[|t|..] == [] && (t + x)[|t|..] == x;
    EqualsWord(x);
    EqualsWord([]);
  }

  /** Whitespace that stops inside `t` leaves the `=` test to `t`. */
  lemma {:induction false} SpaceThenOther(t: string, x: string)
    requires !AllSpace(t, IsPySpace)
    ensures Match([Run(IsPySpace, 0), Word(["="])], t + x) == Match([Run(IsPySpace, 0), Word(["="])], t)
  {
    var tail := [Run(IsPySpace, 0), Word(["="])];
    assert tail[0] == Run(IsPySpace, 0) && tail[1..] == [Word(["="])];
    RunLengthStops(t, x, IsPySpace);
    var u := t[RunLength(t, IsPySpace)..];
    assert u != [] && (u + x)[0..1] == u[0..1];
    EqualsWord(u);
    EqualsWord(u + x);
    MatchSame(tail, t, x);
  }

  lemma {:induction false} EqualsWord(s: string)
    ensures Match([Word(["="])], s) == if OccursAt(s, "=", 0) then Some(1) else None
  {
    assert ["="][1..] == [] && [Word(["="])][1..] == [];
    assert FirstWord(["="][1..], s) == None;
    assert SegMatch(Word(["="]), s) == FirstWord(["="], s);
    if OccursAt(s, "=", 0) {
      assert Match([Word(["="])][1..], s[1..]) == Some(0);
    }
  }

  /** An assignment target read from a text that ends in a non-identifier
      character, followed by an identifier, is decided within that text. */
  lemma {:induction false} AssignSame(t: string, x: string)
    requires t != [] && !IsIdentChar(t[|t| - 1])
    requires x != [] && IsIdentStart(x[0])
    ensures Match(AssignPattern.segs, t + x) == Match(AssignPattern.segs, t)
  {
    var segs := AssignPattern.segs;
    AssignSegs();
    assert segs[0] == IdentSegs[0] && segs[1] == IdentSegs[1];
    assert segs[1..][0] == segs[1] && segs[1..][1..] == segs[2..];
    assert (t + x)[0] == t[0];
    if IsIdentStart(t[0]) {
      var u := t[1..];
      assert u != [] && u[|u| - 1] == t[|t| - 1];
      RunLengthLocal(u, x, IsIdentChar);
      SpaceEqualsSame(u[RunLength(u, IsIdentChar)..], x);
      MatchSame(segs[1..], u, x);
    }
    MatchSame(segs, t, x);
  }

  /** Before an identifier, no assignment match that starts in a text
      ending in a non-identifier character depends on what follows it. */
  lemma {:induction false} AssignSettled(p: string, x: string)
    requires p == [] || !IsIdentChar(p[|p| - 1])
    requires x != [] && IsIdentStart(x[0])
    ensures Settled(AssignPattern.segs, p, x)
  {
    forall k | 0 <= k < |p| ensures SettledAt(AssignPattern.segs, p, x, k) {
      assert p[k..][|p[k..]| - 1] == p[|p| - 1];
      AssignSame(p[k..], x);
    }
  }

  lemma {:induction false} AssignSlicesFront(id: string, w: string, q: string)
    ensures (id + w + "=" + q)[|id| + |w| + 1..] == q
  {
  }

  /** An assignment target at the front is replaced by "var =", and the
      scan resumes after the `=`. */
  lemma {:induction false} AssignFront(id: string, w: string, q: string)
    requires IsIdent(id) && AllSpace(w, IsPySpace)
    ensures RenameAssignments(id + w + "=" + q) == "var =" + RenameAssignments(q)
  {
    PatternsConsume();
    AssignMatch(id, w, q);
    AssignSlicesFront(id, w, q);
    RewriteMatch(AssignPattern, id + w + "=" + q, |id| + |w| + 1);
  }

  /** Every identifier followed by optional whitespace and `=` becomes
      `var =`, whatever follows; the text before it is rewritten on its own
      when it does not end in an identifier character (which would belong to
      the same name). */
  lemma {:induction false} AssignRenamed(p: string, id: string, w: string, q: string)
    requires p == [] || !IsIdentChar(p[|p| - 1])
    requires IsIdent(id) && AllSpace(w, IsPySpace)
    ensures RenameAssignments(p + id + w + "=" + q) == RenameAssignments(p) + "var =" + RenameAssignments(q)
  {
    PatternsConsume();
    AppendAssoc4(p, id, w, "=", q);
    assert (id + w + "=" + q)[0] == id[0];
    AssignSettled(p, id + w + "=" + q);
    RewriteAppendSettled(AssignPattern, p, id + w + "=" + q);
    AssignFront(id, w, q);
    AppendAssoc(RenameAssignments(p), "var =", RenameAssignments(q));
  }

  /** The Python renamings add no character outside "def func" and "var =". */
  lemma {:induction false} PythonNamesKeepOut(code: string, c: char)
    requires c !in code && c !in "def func" && c !in "var ="
    ensures c !in NormalizeNames(code, ".py")
  {
    PatternsConsume();
    RewriteKeepsOut(DefPattern, code, c);
    RewriteKeepsOut(AssignPattern, RenameDefs(code), c);
  }
}
