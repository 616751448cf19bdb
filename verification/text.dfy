/** String helpers shared by every component: the whitespace classes of
    Python and JavaScript, stripping, substring search, splitting on '\n'
    and on whitespace runs, and joining. Strings are `seq<char>`; there is
    no case folding or normalisation beyond what is written here. */
module Text {

  datatype Option<+T> = None | Some(value: T)

  /** The characters Python's `str.isspace()` accepts. The same set is used
      by `str.strip()`, `str.split()` with no argument, and the regex class
      `\s` on `str` patterns. */
  predicate IsPySpace(c: char) {
    || c == ' ' || c == '\t' || c == '\n' || c == '\r'
    || c == '\U{000B}' || c == '\U{000C}'
    || ('\U{001C}' <= c <= '\U{001F}')
    || c == '\U{0085}' || c == '\U{00A0}' || c == '\U{1680}'
    || ('\U{2000}' <= c <= '\U{200A}')
    || c == '\U{2028}' || c == '\U{2029}' || c == '\U{202F}' || c == '\U{205F}' || c == '\U{3000}'
  }

  /** The characters JavaScript's `String.prototype.trim` removes
      (WhiteSpace and LineTerminator of ECMA-262). Unlike Python, the
      information separators U+001C..U+001F are not included and U+FEFF is. */
  predicate IsJsSpace(c: char) {
    || c == ' ' || c == '\t' || c == '\n' || c == '\r'
    || c == '\U{000B}' || c == '\U{000C}'
    || c == '\U{00A0}' || c == '\U{1680}'
    || ('\U{2000}' <= c <= '\U{200A}')
    || c == '\U{2028}' || c == '\U{2029}' || c == '\U{202F}' || c == '\U{205F}' || c == '\U{3000}'
    || c == '\U{FEFF}'
  }

  /** True when every character of `s` satisfies `sp` (vacuously for ""). */
  predicate AllSpace(s: string, sp: char -> bool) {
    forall k :: 0 <= k < |s| ==> sp(s[k])
  }

  /** `s` with its leading `sp`-characters removed. */
  function DropLeading(s: string, sp: char -> bool): (r: string)
    ensures |r| <= |s| && r == s[|s| - |r|..]
    ensures r == [] || !sp(r[0])
    ensures AllSpace(s[..|s| - |r|], sp)
  {
    if s != [] && sp(s[0]) then
      var r := DropLeading(s[1..], sp);
      LeadingStep(s, r, sp);
      r
    else s
  }

  lemma {:induction false} LeadingStep(s: string, r: string, sp: char -> bool)
    requires s != [] && sp(s[0])
    requires |r| <= |s| - 1 && r == s[1..][|s| - 1 - |r|..]
    requires AllSpace(s[1..][..|s| - 1 - |r|], sp)
    ensures r == s[|s| - |r|..] && AllSpace(s[..|s| - |r|], sp)
  {
    var n := |s| - |r|;
    assert s[1..][n - 1..] == s[n..];
    forall k | 0 <= k < n ensures sp(s[..n][k]) {
      if k > 0 {
        assert s[..n][k] == s[1..][..n - 1][k - 1];
      }
    }
  }

  /** `s` with its trailing `sp`-characters removed. */
  function DropTrailing(s: string, sp: char -> bool): (r: string)
    ensures |r| <= |s| && r == s[..|r|]
    ensures r == [] || !sp(r[|r| - 1])
    ensures AllSpace(s[|r|..], sp)
  {
    if s != [] && sp(s[|s| - 1]) then DropTrailing(s[..|s| - 1], sp) else s
  }

  /** `r` is `s` with a run of `sp`-characters, possibly empty, cut from
      each end. */
  predicate TrimmedFrom(s: string, r: string, sp: char -> bool) {
    exists i | 0 <= i <= |s| - |r| :: s[i..i + |r|] == r && AllSpace(s[..i], sp) && AllSpace(s[i + |r|..], sp)
  }

  /** Every character of a trimmed slice comes from the text. */
  lemma {:induction false} TrimmedInside(s: string, r: string, sp: char -> bool)
    requires TrimmedFrom(s, r, sp)
    ensures forall k :: 0 <= k < |r| ==> r[k] in s
  {
    var i :| 0 <= i <= |s| - |r| && s[i..i + |r|] == r && AllSpace(s[..i], sp) && AllSpace(s[i + |r|..], sp);
    forall k | 0 <= k < |r| ensures r[k] in s {
      assert r[k] == s[i..i + |r|][k] == s[i + k];
    }
  }

  /** Both ends trimmed, as `str.strip()` (with `IsPySpace`) or
      `String.prototype.trim` (with `IsJsSpace`). The result is what is left
      of `s` once whitespace is cut from both ends and no more can be cut;
      it is empty exactly when `s` is all whitespace. */
  function Trim(s: string, sp: char -> bool): (r: string)
    ensures TrimmedFrom(s, r, sp)
    ensures r == [] || (!sp(r[0]) && !sp(r[|r| - 1]))
    ensures Contains(s, r)
    ensures r == [] <==> AllSpace(s, sp)
  {
    var a := DropLeading(s, sp);
    var r := DropTrailing(a, sp);
    TrimFacts(s, sp, a, r);
    r
  }

  lemma {:induction false} TrimFacts(s: string, sp: char -> bool, a: string, r: string)
    requires |a| <= |s| && a == s[|s| - |a|..] && (a == [] || !sp(a[0])) && AllSpace(s[..|s| - |a|], sp)
    requires |r| <= |a| && r == a[..|r|] && AllSpace(a[|r|..], sp)
    ensures TrimmedFrom(s, r, sp)
    ensures Contains(s, r)
    ensures r == [] <==> AllSpace(s, sp)
  {
    TrimWitness(s, sp, a, r);
    TrimIsSlice(s, a, r);
    if r == [] {
      TrimAllSpace(s, sp, a);
    } else {
      TrimNotAllSpace(s, sp, a, r);
    }
  }

  lemma {:induction false} TrimNotAllSpace(s: string, sp: char -> bool, a: string, r: string)
    requires |a| <= |s| && a == s[|s| - |a|..]
    requires r != [] && |r| <= |a| && r == a[..|r|] && !sp(a[0])
    ensures !AllSpace(s, sp)
  {
    assert s[|s| - |a|] == a[0];
  }

  lemma {:induction false} TrimWitness(s: string, sp: char -> bool, a: string, r: string)
    requires |a| <= |s| && a == s[|s| - |a|..] && AllSpace(s[..|s| - |a|], sp)
    requires |r| <= |a| && r == a[..|r|] && AllSpace(a[|r|..], sp)
    ensures TrimmedFrom(s, r, sp)
  {
    var i := |s| - |a|;
    assert s[i..i + |r|] == a[..|r|];
    assert s[i + |r|..] == a[|r|..];
  }

  lemma {:induction false} TrimIsSlice(s: string, a: string, r: string)
    requires |a| <= |s| && a == s[|s| - |a|..]
    requires |r| <= |a| && r == a[..|r|]
    ensures Contains(s, r)
  {
    var lo := |s| - |a|;
    assert s[lo..lo + |r|] == r;
    assert OccursAt(s, r, lo);
  }

  lemma {:induction false} TrimAllSpace(s: string, sp: char -> bool, a: string)
    requires |a| <= |s| && a == s[|s| - |a|..]
    requires AllSpace(s[..|s| - |a|], sp) && AllSpace(a[0..], sp)
    ensures AllSpace(s, sp)
  {
    var lo := |s| - |a|;
    assert a[0..] == a;
    assert s == s[..lo] + a;
    AllSpaceAppend(s[..lo], a, sp);
  }

  lemma {:induction false} AllSpaceAppend(x: string, y: string, sp: char -> bool)
    requires AllSpace(x, sp) && AllSpace(y, sp)
    ensures AllSpace(x + y, sp)
  {
    forall k | 0 <= k < |x + y| ensures sp((x + y)[k]) {
      if k < |x| { assert (x + y)[k] == x[k]; } else { assert (x + y)[k] == y[k - |x|]; }
    }
  }

  /** Python's `str.strip()`. */
  function Strip(s: string): (r: string)
    ensures TrimmedFrom(s, r, IsPySpace)
    ensures r == [] || (!IsPySpace(r[0]) && !IsPySpace(r[|r| - 1]))
    ensures r == [] <==> AllSpace(s, IsPySpace)
    ensures |r| <= |s|
  {
    TrimmedLength(s, Trim(s, IsPySpace), IsPySpace);
    Trim(s, IsPySpace)
  }

  lemma {:induction false} TrimmedLength(s: string, r: string, sp: char -> bool)
    requires TrimmedFrom(s, r, sp)
    ensures |r| <= |s|
  {
  }

  /** Trimming has one answer: any piece of `s` left after cutting
      whitespace from both ends that cannot be cut further is `Trim(s, sp)`. */
  lemma {:induction false} TrimUnique(s: string, r: string, sp: char -> bool)
    requires TrimmedFrom(s, r, sp)
    requires r == [] || (!sp(r[0]) && !sp(r[|r| - 1]))
    ensures r == Trim(s, sp)
  {
    TrimmedSame(s, r, Trim(s, sp), sp);
  }

  /** A trimmed piece with non-blank ends is empty exactly when the text is
      all whitespace. */
  lemma {:induction false} TrimmedEmpty(s: string, r: string, sp: char -> bool)
    requires TrimmedFrom(s, r, sp)
    requires r == [] || (!sp(r[0]) && !sp(r[|r| - 1]))
    ensures r == [] <==> AllSpace(s, sp)
  {
    var i :| 0 <= i <= |s| - |r| && s[i..i + |r|] == r && AllSpace(s[..i], sp) && AllSpace(s[i + |r|..], sp);
    if r == [] {
      assert s[i..] == s[i + |r|..];
      AllSpaceSplit(s, i, sp);
    } else {
      assert s[i] == r[0];
    }
  }

  lemma {:induction false} TrimmedSame(s: string, r: string, t: string, sp: char -> bool)
    requires TrimmedFrom(s, r, sp) && (r == [] || (!sp(r[0]) && !sp(r[|r| - 1])))
    requires TrimmedFrom(s, t, sp) && (t == [] || (!sp(t[0]) && !sp(t[|t| - 1])))
    ensures r == t
  {
    TrimmedEmpty(s, r, sp);
    TrimmedEmpty(s, t, sp);
    if r != [] && t != [] {
      var i :| 0 <= i <= |s| - |r| && s[i..i + |r|] == r && AllSpace(s[..i], sp) && AllSpace(s[i + |r|..], sp);
      var j :| 0 <= j <= |s| - |t| && s[j..j + |t|] == t && AllSpace(s[..j], sp) && AllSpace(s[j + |t|..], sp);
      SlicesSame(s, r, t, i, j, sp);
    }
  }

  lemma {:induction false} SlicesSame(s: string, r: string, t: string, i: nat, j: nat, sp: char -> bool)
    requires r != [] && !sp(r[0]) && !sp(r[|r| - 1]) && t != [] && !sp(t[0]) && !sp(t[|t| - 1])
    requires i + |r| <= |s| && s[i..i + |r|] == r && AllSpace(s[..i], sp) && AllSpace(s[i + |r|..], sp)
    requires j + |t| <= |s| && s[j..j + |t|] == t && AllSpace(s[..j], sp) && AllSpace(s[j + |t|..], sp)
    ensures r == t
  {
    assert s[i] == r[0] && s[j] == t[0];
    FirstNonSpace(s, i, j, sp);
    assert s[i + |r| - 1] == r[|r| - 1] && s[j + |t| - 1] == t[|t| - 1];
    LastNonSpace(s, i + |r|, j + |t|, sp);
  }

  lemma {:induction false} AllSpaceSplit(s: string, i: nat, sp: char -> bool)
    requires i <= |s| && AllSpace(s[..i], sp) && AllSpace(s[i..], sp)
    ensures AllSpace(s, sp)
  {
    assert s == s[..i] + s[i..];
    AllSpaceAppend(s[..i], s[i..], sp);
  }

  /** Only one position starts the text after its leading whitespace. */
  lemma {:induction false} FirstNonSpace(s: string, i: nat, j: nat, sp: char -> bool)
    requires i < |s| && j < |s|
    requires AllSpace(s[..i], sp) && !sp(s[i]) && AllSpace(s[..j], sp) && !sp(s[j])
    ensures i == j
  {
    forall k | 0 <= k < i ensures sp(s[k]) {
      assert s[..i][k] == s[k];
    }
    forall k | 0 <= k < j ensures sp(s[k]) {
      assert s[..j][k] == s[k];
    }
  }

  /** Only one position ends the text before its trailing whitespace. */
  lemma {:induction false} LastNonSpace(s: string, e: nat, f: nat, sp: char -> bool)
    requires 0 < e <= |s| && 0 < f <= |s|
    requires AllSpace(s[e..], sp) && !sp(s[e - 1]) && AllSpace(s[f..], sp) && !sp(s[f - 1])
    ensures e == f
  {
    forall k | e <= k < |s| ensures sp(s[k]) {
      assert s[e..][k - e] == s[k];
    }
    forall k | f <= k < |s| ensures sp(s[k]) {
      assert s[f..][k - f] == s[k];
    }
  }


  /** True when `pat` occurs in `s` starting at index `k`. */
  predicate OccursAt(s: string, pat: string, k: int) {
    0 <= k && k + |pat| <= |s| && s[k..k + |pat|] == pat
  }

  /** Python's `pat in s`. */
  predicate Contains(s: string, pat: string) {
    exists k | 0 <= k <= |s| - |pat| :: OccursAt(s, pat, k)
  }

  /** The index of the first occurrence of `pat` in `s`, if any (`str.find`). */
  function Find(s: string, pat: string): (r: Option<nat>)
    ensures r.Some? ==> OccursAt(s, pat, r.value)
    ensures r.Some? ==> forall k :: 0 <= k < r.value ==> !OccursAt(s, pat, k)
    ensures r.None? <==> !Contains(s, pat)
    decreases |s|
  {
    if |s| < |pat| then
      assert forall k :: !OccursAt(s, pat, k);
      None
    else if s[..|pat|] == pat then Some(0)
    else
      var rest := Find(s[1..], pat);
      assert forall k :: 1 <= k ==> (OccursAt(s, pat, k) <==> OccursAt(s[1..], pat, k - 1));
      if rest.None? then None else Some(rest.value + 1)
  }

  lemma {:induction false} OccursAtShift(a: string, b: string, pat: string, k: int)
    requires 0 <= k
    ensures OccursAt(b, pat, k) <==> OccursAt(a + b, pat, |a| + k)
  {
    if 0 <= k && k + |pat| <= |b| {
      assert (a + b)[|a| + k..|a| + k + |pat|] == b[k..k + |pat|];
    }
  }

  lemma {:induction false} OccursAtPrefix(a: string, b: string, pat: string, k: int)
    requires k + |pat| <= |a|
    ensures OccursAt(a, pat, k) <==> OccursAt(a + b, pat, k)
  {
    if 0 <= k {
      assert (a + b)[k..k + |pat|] == a[k..k + |pat|];
    }
  }

  /** The part of `s` after the first occurrence of `pat`. */
  function After(s: string, pat: string): (r: string)
    requires Contains(s, pat)
    ensures |r| <= |s|
  {
    var k := Find(s, pat).value;
    s[k + |pat|..]
  }

  /** The part of `s` before the first occurrence of `pat`, or all of `s`;
      this is `s.split(pat)[0]`. It never contains `pat`. */
  function Before(s: string, pat: string): (r: string)
    requires pat != []
  {
    match Find(s, pat)
    case None => s
    case Some(k) => s[..k]
  }

  /** `Before` is a prefix that holds no occurrence of the pattern, it is cut
      where the first occurrence starts, and it is everything when there is
      none. */
  lemma {:induction false} BeforeSpec(s: string, pat: string)
    requires pat != []
    ensures Before(s, pat) <= s
    ensures !Contains(Before(s, pat), pat)
    ensures Contains(s, pat) ==> OccursAt(s, pat, |Before(s, pat)|)
    ensures !Contains(s, pat) ==> Before(s, pat) == s
  {
    match Find(s, pat)
    case None =>
    case Some(k) =>
      var r := s[..k];
      assert s == r + s[k..];
      forall j | OccursAt(r, pat, j) ensures false {
        OccursAtPrefix(r, s[k..], pat, j);
      }
  }

  /** The first occurrence is found: an occurrence with none before it is
      what `Find` returns. */
  lemma {:induction false} FindAt(s: string, pat: string, k: nat)
    requires OccursAt(s, pat, k)
    requires forall j :: 0 <= j < k ==> !OccursAt(s, pat, j)
    ensures Find(s, pat) == Some(k)
  {
    assert 0 <= k <= |s| - |pat| && OccursAt(s, pat, k);
    var r := Find(s, pat);
    assert r.Some? && r.value <= k;
  }

  /** For a two-character pattern whose characters differ, the first
      occurrence in `b + pat + c` is the one right after `b` when `b` holds
      none: no occurrence can straddle the boundary. */
  lemma {:induction false} FindAfterFree(b: string, pat: string, c: string)
    requires |pat| == 2 && pat[0] != pat[1]
    requires !Contains(b, pat)
    ensures Find(b + pat + c, pat) == Some(|b|)
  {
    var s := b + pat + c;
    assert s[|b|..|b| + 2] == pat;
    forall j | 0 <= j < |b| ensures !OccursAt(s, pat, j) {
      if j + 2 <= |b| {
        OccursAtPrefix(b, pat + c, pat, j);
        assert s == b + (pat + c);
      } else {
        assert s[j + 1] == pat[0];
      }
    }
    FindAt(s, pat, |b|);
  }

  /** An occurrence in `[c] + t` is at the front or is an occurrence in `t`. */
  lemma {:induction false} ContainsCons(c: char, t: string, pat: string)
    requires pat != []
    ensures Contains([c] + t, pat) <==> (OccursAt([c] + t, pat, 0) || Contains(t, pat))
  {
    var s := [c] + t;
    if Contains(s, pat) && !OccursAt(s, pat, 0) {
      var k :| 0 <= k <= |s| - |pat| && OccursAt(s, pat, k);
      OccursAtShift([c], t, pat, k - 1);
      assert OccursAt(t, pat, k - 1);
    }
    if Contains(t, pat) {
      var k :| 0 <= k <= |t| - |pat| && OccursAt(t, pat, k);
      OccursAtShift([c], t, pat, k);
      assert OccursAt(s, pat, k + 1);
    }
  }

  /** A one-character pattern occurs exactly when the character does. */
  lemma {:induction false} ContainsChar(s: string, c: char)
    ensures Contains(s, [c]) <==> c in s
  {
    if c in s {
      var k :| 0 <= k < |s| && s[k] == c;
      assert OccursAt(s, [c], k);
    }
    if Contains(s, [c]) {
      var k :| 0 <= k <= |s| - 1 && OccursAt(s, [c], k);
      assert s[k] == c;
    }
  }

  /** `s.split(pat)[0]` of text starting with `pat` is empty. */
  lemma {:induction false} BeforeAtStart(a: string, pat: string)
    requires pat != [] && OccursAt(a, pat, 0)
    ensures Before(a, pat) == []
  {
    assert a[..|pat|] == pat;
    assert Find(a, pat) == Some(0);
  }

  /** `s.split(pat)[0]` of text not starting with `pat` keeps its first
      character. */
  lemma {:induction false} BeforeCons(a: string, pat: string)
    requires pat != [] && a != [] && !OccursAt(a, pat, 0)
    ensures Before(a, pat) == [a[0]] + Before(a[1..], pat)
  {
    assert a == [a[0]] + a[1..];
    if |a| >= |pat| {
      assert a[..|pat|] != pat;
    }
  }

  lemma {:induction false} BeforeEmpty(pat: string)
    requires pat != []
    ensures Before([], pat) == []
  {
  }

  lemma {:induction false} ConsAppend(c: char, x: string, y: string)
    ensures [c] + (x + y) == ([c] + x) + y
  {
  }

  lemma {:induction false} AppendAssoc(x: string, y: string, z: string)
    ensures x + (y + z) == (x + y) + z
  {
  }

  /** A text splits around any of its positions. */
  lemma {:induction false} SplitAround(s: string, e: nat)
    requires e < |s|
    ensures s == s[..e] + ([s[e]] + s[e + 1..])
  {
  }

  lemma {:induction false} AppendEmpty(s: string)
    ensures s + [] == s && [] + s == s
  {
  }

  lemma {:induction false} ConsSplit<T>(s: seq<T>)
    requires s != []
    ensures s == [s[0]] + s[1..]
  {
  }

  /** The number of occurrences of character `c` in `s`. */
  function CountChar(s: string, c: char): (n: nat)
    ensures n <= |s|
    ensures n == 0 <==> c !in s
  {
    if s == [] then 0 else (if s[0] == c then 1 else 0) + CountChar(s[1..], c)
  }

  lemma {:induction false} CountCharAppend(a: string, b: string, c: char)
    ensures CountChar(a + b, c) == CountChar(a, c) + CountChar(b, c)
  {
    if a != [] {
      assert (a + b)[0] == a[0];
      assert (a + b)[1..] == a[1..] + b;
      CountCharAppend(a[1..], b, c);
    } else {
      assert a + b == b;
    }
  }

  lemma {:induction false} CountCharCons(c: char, t: string, d: char)
    ensures CountChar([c] + t, d) == (if c == d then 1 else 0) + CountChar(t, d)
  {
    assert ([c] + t)[0] == c;
    assert ([c] + t)[1..] == t;
  }

  /** Skipping a line-feed-free prefix keeps the line-feed count. */
  lemma {:induction false} CountCharSkip(s: string, e: nat, d: char)
    requires e <= |s| && d !in s[..e]
    ensures CountChar(s[e..], d) == CountChar(s, d)
  {
    assert s == s[..e] + s[e..];
    CountCharAppend(s[..e], s[e..], d);
  }

  /** The line end of a line-feed-free text followed by a line feed (or by
      nothing) is the text's length. */
  lemma {:induction false} LineEndBefore(a: string, b: string)
    requires '\n' !in a
    requires b == [] || b[0] == '\n'
    ensures LineEnd(a + b) == |a|
  {
    if a != [] {
      assert (a + b)[0] == a[0];
      assert (a + b)[1..] == a[1..] + b;
      LineEndBefore(a[1..], b);
    } else {
      assert a + b == b;
    }
  }

  /** Every character of a piece of a split is a character of the text. */
  lemma {:induction false} LinesChars(s: string, i: int, c: char)
    requires 0 <= i < |Lines(s)| && c in Lines(s)[i]
    ensures c in s
    decreases |s|
  {
    var e := LineEnd(s);
    if e < |s| {
      var tail := s[e + 1..];
      LinesStep(s);
      if i == 0 {
        var k :| 0 <= k < |s[..e]| && s[..e][k] == c;
        assert s[k] == c;
      } else {
        assert Lines(s)[i] == Lines(tail)[i - 1];
        LinesChars(tail, i - 1, c);
        var k :| 0 <= k < |tail| && tail[k] == c;
        assert s[e + 1 + k] == c;
      }
    }
  }

  /** The index of the first '\n' of `s`, or `|s|` when there is none. */
  function LineEnd(s: string): (r: nat)
    ensures r <= |s|
    ensures s != [] && s[0] != '\n' ==> r > 0
    ensures '\n' !in s[..r]
    ensures r < |s| ==> s[r] == '\n'
  {
    if s == [] || s[0] == '\n' then 0 else 1 + LineEnd(s[1..])
  }

  /** Python's `s.split('\n')`: the pieces between line feeds. There is
      always at least one piece, and there is one more piece than line feeds. */
  function Lines(s: string): (r: seq<string>)
    ensures |r| >= 1
    decreases |s|
  {
    var e := LineEnd(s);
    if e == |s| then [s] else [s[..e]] + Lines(s[e + 1..])
  }

  /** There is one more piece than line feeds, and no piece holds one. */
  lemma {:induction false} LinesShape(s: string)
    ensures |Lines(s)| == CountChar(s, '\n') + 1
    ensures forall i :: 0 <= i < |Lines(s)| ==> '\n' !in Lines(s)[i]
  {
    LinesCount(s);
    LinesNoFeed(s);
  }

  lemma {:induction false} LinesCount(s: string)
    ensures |Lines(s)| == CountChar(s, '\n') + 1
    decreases |s|
  {
    var e := LineEnd(s);
    if e < |s| {
      var tail := s[e + 1..];
      LinesStep(s);
      LinesCount(tail);
      CountCharSkip(s, e, '\n');
      assert s[e..] == ['\n'] + tail;
      CountCharCons('\n', tail, '\n');
    } else {
      assert s[..e] == s;
    }
  }

  lemma {:induction false} LinesNoFeed(s: string)
    ensures forall i :: 0 <= i < |Lines(s)| ==> '\n' !in Lines(s)[i]
    decreases |s|
  {
    var e := LineEnd(s);
    if e < |s| {
      var tail := s[e + 1..];
      LinesStep(s);
      LinesNoFeed(tail);
      var ls := Lines(s);
      assert ls == [s[..e]] + Lines(tail);
      forall i | 0 <= i < |ls| ensures '\n' !in ls[i] {
        if i > 0 {
          assert ls[i] == Lines(tail)[i - 1];
        }
      }
    } else {
      assert s[..e] == s;
    }
  }

  /** A text without a line feed is a single line. */
  lemma {:induction false} LinesSingle(line: string)
    requires '\n' !in line
    ensures Lines(line) == [line]
  {
    AppendEmpty(line);
    LineEndBefore(line, []);
  }

  /** `sep.join(parts)`. */
  function Join(parts: seq<string>, sep: string): (r: string)
  {
    if |parts| == 0 then ""
    else if |parts| == 1 then parts[0]
    else parts[0] + sep + Join(parts[1..], sep)
  }

  /** `'\n'.join(parts)`. */
  function JoinLines(parts: seq<string>): string {
    Join(parts, "\n")
  }

  lemma {:induction false} LineEndOfJoined(a: string, b: string)
    requires '\n' !in a
    ensures LineEnd(a + "\n" + b) == |a|
    ensures LineEnd(a) == |a|
  {
    if a != [] {
      assert (a + "\n" + b)[1..] == a[1..] + "\n" + b;
      LineEndOfJoined(a[1..], b);
    }
  }

  /** Splitting a '\n'-join of line-feed-free pieces gives the pieces back. */
  lemma {:induction false} LinesOfJoin(parts: seq<string>)
    requires |parts| >= 1
    requires forall i :: 0 <= i < |parts| ==> '\n' !in parts[i]
    ensures Lines(JoinLines(parts)) == parts
  {
    if |parts| == 1 {
      LineEndOfJoined(parts[0], "");
    } else {
      var s := JoinLines(parts);
      var tail := JoinLines(parts[1..]);
      assert parts == [parts[0]] + parts[1..];
      JoinStep(parts[0], parts[1..], "\n");
      LineEndOfJoined(parts[0], tail);
      var e := |parts[0]|;
      assert s[..e] == parts[0];
      assert s[e + 1..] == tail;
      LinesStep(s);
      LinesOfJoin(parts[1..]);
    }
  }

  /** Joining the pieces of a split gives the string back. */
  lemma {:induction false} JoinOfLines(s: string)
    ensures JoinLines(Lines(s)) == s
    decreases |s|
  {
    var e := LineEnd(s);
    if e == |s| {
      assert Lines(s) == [s];
      assert Join([s], "\n") == s;
    } else {
      var head, tail := s[..e], s[e + 1..];
      LinesStep(s);
      JoinStep(head, Lines(tail), "\n");
      JoinOfLines(tail);
      CutAtLineFeed(s, e);
    }
  }

  lemma {:induction false} CutAtLineFeed(s: string, e: nat)
    requires e < |s| && s[e] == '\n'
    ensures s == s[..e] + "\n" + s[e + 1..]
  {
    assert s[e..] == "\n" + s[e + 1..];
    assert s == s[..e] + s[e..];
  }

  lemma {:induction false} LinesStep(s: string)
    requires LineEnd(s) < |s|
    ensures Lines(s) == [s[..LineEnd(s)]] + Lines(s[LineEnd(s) + 1..])
  {
  }

  lemma {:induction false} JoinStep(head: string, rest: seq<string>, sep: string)
    requires |rest| >= 1
    ensures Join([head] + rest, sep) == head + sep + Join(rest, sep)
  {
    assert ([head] + rest)[1..] == rest;
  }

  /** Every character of a join is a character of some piece or of the
      separator. */
  lemma {:induction false} JoinChars(parts: seq<string>, sep: string, c: char)
    requires c in Join(parts, sep)
    ensures c in sep || exists i :: 0 <= i < |parts| && c in parts[i]
  {
    if |parts| > 1 {
      var t := Join(parts[1..], sep);
      if c !in parts[0] && c !in sep {
        JoinChars(parts[1..], sep, c);
        var i :| 0 <= i < |parts| - 1 && c in parts[1..][i];
        assert c in parts[i + 1];
      }
    }
  }

  /** Python's `str.split()` with no argument: the maximal runs of
      non-whitespace characters, in order. Whitespace-only text gives []. */
  function Words(s: string): (r: seq<string>)
    ensures forall i :: 0 <= i < |r| ==> IsWord(r[i])
    decreases |s|
  {
    if s == [] then []
    else if IsPySpace(s[0]) then Words(s[1..])
    else
      var n := WordEnd(s);
      WordEndPrefix(s, n);
      [s[..n]] + Words(s[n..])
  }

  /** The length of the run of non-whitespace characters at the start of `s`. */
  function WordEnd(s: string): (n: nat)
    ensures n <= |s|
    ensures n < |s| ==> IsPySpace(s[n])
    ensures s != [] && !IsPySpace(s[0]) ==> n > 0
  {
    if s == [] || IsPySpace(s[0]) then 0 else 1 + WordEnd(s[1..])
  }

  /** A word: non-empty and, being one whitespace-free run, free of
      whitespace. */
  predicate IsWord(w: string) {
    w != [] && WordEnd(w) == |w|
  }

  /** A word contains no whitespace character. */
  lemma {:induction false} WordHasNoSpace(w: string, k: int)
    requires IsWord(w) && 0 <= k < |w|
    ensures !IsPySpace(w[k])
  {
    if k > 0 {
      assert WordEnd(w[1..]) == |w| - 1;
      WordHasNoSpace(w[1..], k - 1);
    }
  }

  lemma {:induction false} WordEndPrefix(t: string, m: nat)
    requires m <= WordEnd(t)
    ensures WordEnd(t[..m]) == m
  {
    if m > 0 {
      assert t[..m][1..] == t[1..][..m - 1];
      WordEndPrefix(t[1..], m - 1);
    }
  }

  lemma {:induction false} WordEndOfWord(w: string, rest: string)
    requires WordEnd(w) == |w|
    requires rest == [] || IsPySpace(rest[0])
    ensures WordEnd(w + rest) == |w|
  {
    if w != [] {
      assert (w + rest)[0] == w[0];
      assert (w + rest)[1..] == w[1..] + rest;
      WordEndOfWord(w[1..], rest);
    } else {
      assert w + rest == rest;
    }
  }

  /** A word followed by whitespace (or nothing) is the first word. */
  lemma {:induction false} WordsCons(w: string, rest: string)
    requires IsWord(w)
    requires rest == [] || IsPySpace(rest[0])
    ensures Words(w + rest) == [w] + Words(rest)
  {
    var s := w + rest;
    assert s[0] == w[0];
    assert !IsPySpace(w[0]) by { WordHasNoSpace(w, 0); }
    WordEndOfWord(w, rest);
    assert s[..|w|] == w;
    assert s[|w|..] == rest;
  }

  /** A leading whitespace character of any kind does not change the words.
      With `WordsCons` this fixes the words of every text: they are its
      whitespace-separated runs. */
  lemma {:induction false} WordsSpaceCons(c: char, t: string)
    requires IsPySpace(c)
    ensures Words([c] + t) == Words(t)
  {
    assert ([c] + t)[1..] == t;
  }

  /** Splitting a single-space join of words gives the words back. */
  lemma {:induction false} WordsOfJoin(ws: seq<string>)
    requires forall i :: 0 <= i < |ws| ==> IsWord(ws[i])
    ensures Words(Join(ws, " ")) == ws
  {
    if |ws| == 0 {
      WordsOfEmpty();
    } else if |ws| == 1 {
      WordsOfSingle(ws[0]);
      assert ws == [ws[0]];
    } else {
      WordsOfJoinStep(ws[0], ws[1..]);
      WordsOfJoin(ws[1..]);
      assert ws == [ws[0]] + ws[1..];
    }
  }

  lemma {:induction false} WordsOfEmpty()
    ensures Words(Join([], " ")) == []
  {
    assert Words("") == [];
  }

  lemma {:induction false} WordsOfSingle(w: string)
    requires IsWord(w)
    ensures Words(Join([w], " ")) == [w]
  {
    WordsCons(w, "");
    assert w + "" == w;
    assert Words("") == [];
  }

  lemma {:induction false} WordsOfJoinStep(w: string, rest: seq<string>)
    requires IsWord(w) && |rest| >= 1
    ensures Words(Join([w] + rest, " ")) == [w] + Words(Join(rest, " "))
  {
    var tail := Join(rest, " ");
    JoinStep(w, rest, " ");
    assert w + " " + tail == w + (" " + tail);
    WordsCons(w, " " + tail);
    WordsSpaceCons(' ', tail);
  }

  /** Every character of `s` satisfying `keep`, in order. */
  function FilterChars(s: string, keep: char -> bool): (r: string)
    ensures |r| <= |s|
    ensures forall k :: 0 <= k < |r| ==> keep(r[k]) && r[k] in s
    ensures forall c :: c in s && keep(c) ==> c in r
  {
    if s == [] then []
    else (if keep(s[0]) then [s[0]] else []) + FilterChars(s[1..], keep)
  }

  /** Filtering works piece by piece: the kept characters of `a + b` are
      those of `a` followed by those of `b`. With the one-character case
      this pins down order and multiplicity. */
  lemma {:induction false} FilterAppend(a: string, b: string, keep: char -> bool)
    ensures FilterChars(a + b, keep) == FilterChars(a, keep) + FilterChars(b, keep)
    decreases |a|
  {
    if a == [] {
      assert a + b == b;
    } else {
      assert (a + b)[0] == a[0] && (a + b)[1..] == a[1..] + b;
      FilterAppend(a[1..], b, keep);
      AppendAssoc(if keep(a[0]) then [a[0]] else [], FilterChars(a[1..], keep), FilterChars(b, keep));
    }
  }

  /** One character is kept exactly when it passes the filter. */
  lemma {:induction false} FilterOne(c: char, keep: char -> bool)
    ensures FilterChars([c], keep) == if keep(c) then [c] else []
  {
    assert [c][1..] == [];
  }

  /** A text whose every character passes the filter is kept whole. */
  lemma {:induction false} FilterKeepsAll(s: string, keep: char -> bool)
    requires forall k :: 0 <= k < |s| ==> keep(s[k])
    ensures FilterChars(s, keep) == s
    decreases |s|
  {
    if s != [] {
      FilterKeepsAll(s[1..], keep);
      assert [s[0]] + s[1..] == s;
    }
  }

  /** Every occurrence of character `c` replaced by `sub`, as
      `s.replace(c, sub)` for a one-character `c`. */
  function ReplaceChar(s: string, c: char, sub: string): (r: string)
    ensures c !in sub ==> c !in r
    ensures forall d :: d in r && d != c && d !in sub ==> d in s
  {
    if s == [] then []
    else (if s[0] == c then sub else [s[0]]) + ReplaceChar(s[1..], c, sub)
  }

  /** Replacing works piece by piece. With the one-character case this
      pins the result down completely. */
  lemma {:induction false} ReplaceAppend(a: string, b: string, c: char, sub: string)
    ensures ReplaceChar(a + b, c, sub) == ReplaceChar(a, c, sub) + ReplaceChar(b, c, sub)
    decreases |a|
  {
    if a == [] {
      assert a + b == b;
    } else {
      assert (a + b)[0] == a[0] && (a + b)[1..] == a[1..] + b;
      ReplaceAppend(a[1..], b, c, sub);
      AppendAssoc(if a[0] == c then sub else [a[0]], ReplaceChar(a[1..], c, sub), ReplaceChar(b, c, sub));
    }
  }

  /** One character becomes `sub` when it is `c` and stays otherwise. */
  lemma {:induction false} ReplaceOne(d: char, c: char, sub: string)
    ensures ReplaceChar([d], c, sub) == if d == c then sub else [d]
  {
    assert [d][1..] == [];
  }

  /** Each occurrence of `c` is traded for the characters of `sub`. */
  lemma {:induction false} ReplaceCharLength(s: string, c: char, sub: string)
    ensures |ReplaceChar(s, c, sub)| == |s| + (|sub| - 1) * CountChar(s, c)
    decreases |s|
  {
    if s != [] {
      var hit := s[0] == c;
      var head := if hit then sub else [s[0]];
      ReplaceCharLength(s[1..], c, sub);
      assert ReplaceChar(s, c, sub) == head + ReplaceChar(s[1..], c, sub);
      assert CountChar(s, c) == CountChar(s[1..], c) + (if hit then 1 else 0);
      LengthStep(|head|, |ReplaceChar(s[1..], c, sub)|, |s|, |sub| - 1, CountChar(s[1..], c), hit);
    }
  }

  /** The arithmetic of one step of `ReplaceCharLength`. */
  lemma {:induction false} LengthStep(headLen: int, restLen: int, len: int, m: int, n: int, hit: bool)
    requires restLen == (len - 1) + m * n
    requires headLen == if hit then m + 1 else 1
    ensures headLen + restLen == len + m * (n + (if hit then 1 else 0))
  {
    if hit {
      MulSucc(m, n);
    }
  }

  lemma {:induction false} MulSucc(m: int, n: int)
    ensures m * (n + 1) == m * n + m
  {
  }

  /** With a one-character replacement the length is kept and every
      position is replaced on its own. */
  lemma {:induction false} ReplaceCharPointwise(s: string, c: char, d: char)
    ensures |ReplaceChar(s, c, [d])| == |s|
    ensures forall k :: 0 <= k < |s| ==> ReplaceChar(s, c, [d])[k] == if s[k] == c then d else s[k]
    decreases |s|
  {
    if s != [] {
      var t := ReplaceChar(s[1..], c, [d]);
      ReplaceCharPointwise(s[1..], c, d);
      var y := if s[0] == c then d else s[0];
      assert ReplaceChar(s, c, [d]) == [y] + t;
      forall k | 0 <= k < |s| ensures ReplaceChar(s, c, [d])[k] == if s[k] == c then d else s[k] {
        if k > 0 {
          assert ([y] + t)[k] == t[k - 1] && s[k] == s[1..][k - 1];
        }
      }
    }
  }

  /** ASCII lower-casing (Python's `str.lower()` on ASCII text). */
  function LowerChar(c: char): (d: char)
    ensures 'A' <= c <= 'Z' ==> 'a' <= d <= 'z'
    ensures !('A' <= c <= 'Z') ==> d == c
  {
    if 'A' <= c <= 'Z' then (c as int - 'A' as int + 'a' as int) as char else c
  }

  function Lower(s: string): (r: string)
    ensures |r| == |s|
    ensures forall k :: 0 <= k < |s| ==> r[k] == LowerChar(s[k])
  {
    if s == [] then [] else [LowerChar(s[0])] + Lower(s[1..])
  }
}
