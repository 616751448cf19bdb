/** The regular expressions the pipeline and the checker service use, as
    data: a pattern is a sequence of segments, each a set of literal
    alternatives, a single character of a class, or a greedy run of a class.
    Matching is greedy without backtracking. For every pattern written in
    this model each run is followed by a segment whose first character lies
    outside the run's class, so backtracking could never find another match
    and the greedy reading is the regular-expression reading. */
module Patterns {
  import opened Text

  datatype Segment =
    | Word(alternatives: seq<string>)        // `(a|b|c)`: the first alternative present
    | Class(member: char -> bool)            // one character of a class
    | Run(member: char -> bool, least: nat)  // `x*` (least 0) or `x+` (least 1), greedy

  /** `[a-zA-Z_]`. */
  predicate IsIdentStart(c: char) {
    ('a' <= c <= 'z') || ('A' <= c <= 'Z') || c == '_'
  }

  /** `[a-zA-Z0-9_]`. */
  predicate IsIdentChar(c: char) {
    IsIdentStart(c) || ('0' <= c <= '9')
  }

  /** The length of the longest prefix of `s` whose characters are all in
      the class. */
  function RunLength(s: string, member: char -> bool): (n: nat)
    ensures n <= |s|
  {
    if s != [] && member(s[0]) then 1 + RunLength(s[1..], member) else 0
  }

  /** A run covers its characters and stops at the first one outside the
      class. */
  lemma {:induction false} RunLengthSpec(s: string, member: char -> bool)
    ensures forall i :: 0 <= i < RunLength(s, member) ==> member(s[i])
    ensures RunLength(s, member) < |s| ==> !member(s[RunLength(s, member)])
  {
    if s != [] && member(s[0]) {
      RunLengthSpec(s[1..], member);
      forall i | 0 <= i < RunLength(s, member) ensures member(s[i]) {
        if i > 0 {
          assert s[i] == s[1..][i - 1];
        }
      }
    }
  }

  /** A run over `w` that is followed by a character outside the class, or
      by nothing, has exactly the length of `w`. */
  lemma {:induction false} RunLengthExact(w: string, t: string, member: char -> bool)
    requires forall i :: 0 <= i < |w| ==> member(w[i])
    requires t == [] || !member(t[0])
    ensures RunLength(w + t, member) == |w|
    decreases |w|
  {
    if w == [] {
      assert w + t == t;
    } else {
      assert (w + t)[0] == w[0];
      assert (w + t)[1..] == w[1..] + t;
      RunLengthExact(w[1..], t, member);
    }
  }

  /** A run that does not reach the end of `p` is not changed by what
      follows `p`. */
  lemma {:induction false} RunLengthLocal(p: string, x: string, member: char -> bool)
    requires p != [] && !member(p[|p| - 1])
    ensures RunLength(p + x, member) == RunLength(p, member) < |p|
    decreases |p|
  {
    assert (p + x)[0] == p[0];
    if member(p[0]) {
      assert |p| > 1;
      assert (p + x)[1..] == p[1..] + x;
      RunLengthLocal(p[1..], x, member);
    }
  }

  /** The length of the first alternative that starts `s`. */
  function FirstWord(alternatives: seq<string>, s: string): (r: Option<nat>)
    ensures r.Some? ==> r.value <= |s|
  {
    if alternatives == [] then None
    else if OccursAt(s, alternatives[0], 0) then Some(|alternatives[0]|)
    else FirstWord(alternatives[1..], s)
  }

  /** How many characters one segment consumes at the start of `s`. */
  function SegMatch(seg: Segment, s: string): (r: Option<nat>)
    ensures r.Some? ==> r.value <= |s|
  {
    match seg
    case Word(alternatives) => FirstWord(alternatives, s)
    case Class(member) => if s != [] && member(s[0]) then Some(1) else None
    case Run(member, least) =>
      var n := RunLength(s, member);
      if n >= least then Some(n) else None
  }

  /** The length of the match of `segs` at the start of `s`, if any. */
  function Match(segs: seq<Segment>, s: string): (r: Option<nat>)
    ensures r.Some? ==> r.value <= |s|
  {
    if segs == [] then Some(0)
    else match SegMatch(segs[0], s)
      case None => None
      case Some(n) =>
        match Match(segs[1..], s[n..])
        case None => None
        case Some(m) => Some(n + m)
  }

  /** Whether a segment can consume character `c`. */
  predicate SegHas(seg: Segment, c: char) {
    match seg
    case Word(alternatives) => exists i | 0 <= i < |alternatives| :: c in alternatives[i]
    case Class(member) => member(c)
    case Run(member, _) => member(c)
  }

  /** Whether any segment of the pattern can consume character `c`. A text
      ending in a character no segment can consume is a barrier: no match
      can run across its end. */
  predicate Inside(segs: seq<Segment>, c: char) {
    segs != [] && (SegHas(segs[0], c) || Inside(segs[1..], c))
  }

  /** A character that no single segment consumes is outside the pattern. */
  lemma {:induction false} NotInside(segs: seq<Segment>, c: char)
    requires forall i :: 0 <= i < |segs| ==> !SegHas(segs[i], c)
    ensures !Inside(segs, c)
    decreases |segs|
  {
    if segs != [] {
      assert !SegHas(segs[0], c);
      forall i | 0 <= i < |segs[1..]| ensures !SegHas(segs[1..][i], c) {
        assert segs[1..][i] == segs[i + 1];
      }
      NotInside(segs[1..], c);
    }
  }

  /** `p` is empty or ends in a character no segment can consume. */
  predicate EndsOutside(p: string, segs: seq<Segment>) {
    p == [] || !Inside(segs, p[|p| - 1])
  }

  /** Matches of patterns whose first segment always consumes something are
      never empty, so a scan over them always makes progress. */
  predicate Consuming(segs: seq<Segment>) {
    segs != [] &&
    match segs[0]
    case Word(alternatives) => forall i :: 0 <= i < |alternatives| ==> alternatives[i] != []
    case Class(_) => true
    case Run(_, least) => least >= 1
  }

  lemma {:induction false} FirstWordNonEmpty(alternatives: seq<string>, s: string)
    requires forall i :: 0 <= i < |alternatives| ==> alternatives[i] != []
    ensures FirstWord(alternatives, s).Some? ==> FirstWord(alternatives, s).value >= 1
  {
    if alternatives != [] && !OccursAt(s, alternatives[0], 0) {
      FirstWordNonEmpty(alternatives[1..], s);
    }
  }

  lemma {:induction false} MatchNonEmpty(segs: seq<Segment>, s: string)
    requires Consuming(segs)
    ensures Match(segs, s).Some? ==> Match(segs, s).value >= 1
  {
    if segs[0].Word? {
      FirstWordNonEmpty(segs[0].alternatives, s);
    }
  }

  /** An alternative that starts `p + x` but does not fit in `p` before its
      last character would contain that last character. */
  lemma {:induction false} FirstWordLocal(alternatives: seq<string>, p: string, x: string)
    requires p != [] && forall i :: 0 <= i < |alternatives| ==> p[|p| - 1] !in alternatives[i]
    ensures FirstWord(alternatives, p + x) == FirstWord(alternatives, p)
    ensures FirstWord(alternatives, p).Some? ==> FirstWord(alternatives, p).value < |p|
  {
    if alternatives != [] {
      WordFits(alternatives[0], p, x);
      if !OccursAt(p + x, alternatives[0], 0) {
        FirstWordLocal(alternatives[1..], p, x);
      }
    }
  }

  /** A word without the last character of `p` starts `p + x` iff it
      starts `p`, and then it ends before that character. */
  lemma {:induction false} WordFits(w: string, p: string, x: string)
    requires p != [] && p[|p| - 1] !in w
    ensures OccursAt(p + x, w, 0) <==> OccursAt(p, w, 0)
    ensures OccursAt(p, w, 0) ==> |w| < |p|
  {
    if |w| < |p| {
      assert (p + x)[..|w|] == p[..|w|];
    } else if |w| <= |p + x| {
      assert (p + x)[..|w|][|p| - 1] == p[|p| - 1];
    }
  }

  lemma {:induction false} SegMatchLocal(seg: Segment, p: string, x: string)
    requires p != [] && !SegHas(seg, p[|p| - 1])
    ensures SegMatch(seg, p + x) == SegMatch(seg, p)
    ensures SegMatch(seg, p).Some? ==> SegMatch(seg, p).value < |p|
  {
    match seg
    case Word(alternatives) =>
      FirstWordLocal(alternatives, p, x);
    case Class(member) =>
      assert (p + x)[0] == p[0];
    case Run(member, least) =>
      RunLengthLocal(p, x, member);
  }

  /** A match that starts in `p` ends before `p` does when `p` ends outside
      the pattern: what follows `p` cannot change it. */
  lemma {:induction false} MatchLocal(segs: seq<Segment>, p: string, x: string)
    requires p != [] && !Inside(segs, p[|p| - 1])
    ensures Match(segs, p + x) == Match(segs, p)
    ensures Match(segs, p).Some? ==> Match(segs, p).value < |p|
    decreases |segs|
  {
    if segs != [] {
      SegMatchLocal(segs[0], p, x);
      match SegMatch(segs[0], p)
      case None =>
      case Some(n) =>
        DropAppend(p, x, n);
        MatchLocal(segs[1..], p[n..], x);
    }
  }

  lemma {:induction false} DropAppend(p: string, x: string, n: nat)
    requires n < |p|
    ensures (p + x)[n..] == p[n..] + x && (p + x)[..n] == p[..n]
    ensures p[n..] != [] && p[n..][|p[n..]| - 1] == p[|p| - 1]
  {
  }

  /** What a match is replaced by: fixed text, or the text the first
      segment matched followed by fixed text (`r'\1 func'`). */
  datatype Replacement = Fixed(text: string) | FirstThen(text: string)

  datatype Pattern = Pattern(segs: seq<Segment>, replacement: Replacement)

  /** The replacement for the matched text `m`. */
  function Replace(pat: Pattern, m: string): string
    requires Consuming(pat.segs)
  {
    match pat.replacement
    case Fixed(text) => text
    case FirstThen(text) =>
      match SegMatch(pat.segs[0], m)
      case Some(n) => m[..n] + text
      case None => text
  }

  /** `re.sub(pattern, replacement, s)`: scanning left to right, every
      leftmost match is replaced and the scan resumes after it. */
  function Rewrite(pat: Pattern, s: string): (r: string)
    requires Consuming(pat.segs)
    decreases |s|
  {
    if s == [] then []
    else match Match(pat.segs, s)
      case Some(n) =>
        MatchNonEmpty(pat.segs, s);
        Replace(pat, s[..n]) + Rewrite(pat, s[n..])
      case None => [s[0]] + Rewrite(pat, s[1..])
  }

  /** The replacement brings in no character but those of its text. */
  lemma {:induction false} ReplaceKeepsOut(pat: Pattern, m: string, c: char)
    requires Consuming(pat.segs) && c !in m && c !in pat.replacement.text
    ensures c !in Replace(pat, m)
  {
    match pat.replacement
    case Fixed(text) =>
    case FirstThen(text) =>
      match SegMatch(pat.segs[0], m)
      case Some(n) =>
        assert forall k :: 0 <= k < n ==> m[..n][k] == m[k];
      case None =>
  }

  /** A rewrite adds no character that neither the text nor the
      replacement holds. */
  lemma {:induction false} RewriteKeepsOut(pat: Pattern, s: string, c: char)
    requires Consuming(pat.segs) && c !in s && c !in pat.replacement.text
    ensures c !in Rewrite(pat, s)
    decreases |s|
  {
    if s != [] {
      match Match(pat.segs, s)
      case Some(n) =>
        MatchNonEmpty(pat.segs, s);
        assert forall k :: 0 <= k < n ==> s[..n][k] == s[k];
        assert forall k :: 0 <= k < |s| - n ==> s[n..][k] == s[k + n];
        ReplaceKeepsOut(pat, s[..n], c);
        RewriteKeepsOut(pat, s[n..], c);
      case None =>
        assert forall k :: 0 <= k < |s| - 1 ==> s[1..][k] == s[k + 1];
        RewriteKeepsOut(pat, s[1..], c);
    }
  }

  /** A match at the front is replaced and the scan goes on after it. */
  lemma {:induction false} RewriteMatch(pat: Pattern, s: string, n: nat)
    requires Consuming(pat.segs) && s != [] && Match(pat.segs, s) == Some(n)
    ensures n >= 1 && Rewrite(pat, s) == Replace(pat, s[..n]) + Rewrite(pat, s[n..])
  {
    MatchNonEmpty(pat.segs, s);
  }

  /** Without a match at the front the first character is copied. */
  lemma {:induction false} RewriteCopy(pat: Pattern, s: string)
    requires Consuming(pat.segs) && s != [] && Match(pat.segs, s).None?
    ensures Rewrite(pat, s) == [s[0]] + Rewrite(pat, s[1..])
  {
  }

  /** The scan is compositional at barriers: rewriting `p + x` rewrites
      `p` and `x` separately when `p` ends outside the pattern. */
  lemma {:induction false} RewriteAppend(pat: Pattern, p: string, x: string)
    requires Consuming(pat.segs) && EndsOutside(p, pat.segs)
    ensures Rewrite(pat, p + x) == Rewrite(pat, p) + Rewrite(pat, x)
  {
    forall k | 0 <= k < |p| ensures SettledAt(pat.segs, p, x, k) {
      DropAppend(p, x, k);
      MatchLocal(pat.segs, p[k..], x);
    }
    RewriteAppendSettled(pat, p, x);
  }

  lemma {:induction false} DropOne(p: string, x: string)
    requires p != []
    ensures (p + x)[1..] == p[1..] + x && (p + x)[0] == p[0]
    ensures p[1..] == [] || p[1..][|p[1..]| - 1] == p[|p| - 1]
  {
  }

  /** No match that starts inside `p` is changed by `x` written after `p`:
      whatever a match starting there consumes, it consumes from `p`. */
  predicate Settled(segs: seq<Segment>, p: string, x: string) {
    forall k :: 0 <= k < |p| ==> SettledAt(segs, p, x, k)
  }

  /** The match starting at position `k` of `p` is not changed by `x`. */
  predicate SettledAt(segs: seq<Segment>, p: string, x: string, k: nat)
    requires k <= |p|
  {
    Match(segs, p[k..] + x) == Match(segs, p[k..])
  }

  lemma {:induction false} SettledDrop(segs: seq<Segment>, p: string, x: string, n: nat)
    requires Settled(segs, p, x) && n <= |p|
    ensures Settled(segs, p[n..], x)
  {
    forall k | 0 <= k < |p[n..]| ensures SettledAt(segs, p[n..], x, k) {
      assert SettledAt(segs, p, x, n + k);
      assert p[n..][k..] == p[n + k..];
    }
  }

  lemma {:induction false} SettledFront(segs: seq<Segment>, p: string, x: string)
    requires Settled(segs, p, x) && p != []
    ensures Match(segs, p + x) == Match(segs, p)
  {
    assert SettledAt(segs, p, x, 0);
    assert p[0..] == p;
  }

  /** The scan is compositional wherever `p` settles every match that starts
      in it, which is more often than at barriers: a match may reach the end
      of `p`, or run into whitespace at its end, as long as `x` cannot change
      it. */
  lemma {:induction false} RewriteAppendSettled(pat: Pattern, p: string, x: string)
    requires Consuming(pat.segs) && Settled(pat.segs, p, x)
    ensures Rewrite(pat, p + x) == Rewrite(pat, p) + Rewrite(pat, x)
    decreases |p|
  {
    if p == [] {
      AppendEmpty(x);
      AppendEmpty(Rewrite(pat, x));
    } else {
      SettledFront(pat.segs, p, x);
      match Match(pat.segs, p)
      case None =>
        SettledDrop(pat.segs, p, x, 1);
        RewriteAppendSettled(pat, p[1..], x);
        CopyStep(pat, p, x);
      case Some(n) =>
        MatchNonEmpty(pat.segs, p);
        SettledDrop(pat.segs, p, x, n);
        RewriteAppendSettled(pat, p[n..], x);
        MatchStep(pat, p, x, n);
    }
  }

  /** One copied character, then the rest of the scan. */
  lemma {:induction false} CopyStep(pat: Pattern, p: string, x: string)
    requires Consuming(pat.segs) && p != []
    requires Match(pat.segs, p + x) == Match(pat.segs, p) == None
    requires Rewrite(pat, p[1..] + x) == Rewrite(pat, p[1..]) + Rewrite(pat, x)
    ensures Rewrite(pat, p + x) == Rewrite(pat, p) + Rewrite(pat, x)
  {
    DropOne(p, x);
    RewriteCopy(pat, p + x);
    RewriteCopy(pat, p);
    ConsAppend(p[0], Rewrite(pat, p[1..]), Rewrite(pat, x));
  }

  /** One replaced match, then the rest of the scan. */
  lemma {:induction false} MatchStep(pat: Pattern, p: string, x: string, n: nat)
    requires Consuming(pat.segs) && p != []
    requires Match(pat.segs, p + x) == Match(pat.segs, p) == Some(n)
    requires Rewrite(pat, p[n..] + x) == Rewrite(pat, p[n..]) + Rewrite(pat, x)
    ensures Rewrite(pat, p + x) == Rewrite(pat, p) + Rewrite(pat, x)
  {
    RewriteMatch(pat, p, n);
    RewriteMatch(pat, p + x, n);
    SplitAppend(p, x, n);
    var head := Replace(pat, p[..n]);
    assert Rewrite(pat, p + x) == head + Rewrite(pat, p[n..] + x);
    assert Rewrite(pat, p) == head + Rewrite(pat, p[n..]);
    AppendAssoc(head, Rewrite(pat, p[n..]), Rewrite(pat, x));
  }

  lemma {:induction false} SplitAppend(p: string, x: string, n: nat)
    requires n <= |p|
    ensures (p + x)[..n] == p[..n] && (p + x)[n..] == p[n..] + x
  {
  }

  /** A match is unaffected by `x` when its first segment is, and so is the
      rest of the match after that segment. */
  lemma {:induction false} MatchSame(segs: seq<Segment>, t: string, x: string)
    requires segs != []
    requires SegMatch(segs[0], t + x) == SegMatch(segs[0], t)
    requires SegMatch(segs[0], t).Some? ==>
      Match(segs[1..], t[SegMatch(segs[0], t).value..] + x) == Match(segs[1..], t[SegMatch(segs[0], t).value..])
    ensures Match(segs, t + x) == Match(segs, t)
  {
    match SegMatch(segs[0], t)
    case None =>
    case Some(n) =>
      assert (t + x)[n..] == t[n..] + x;
  }

  /** A run that meets a character outside its class within `t` stops
      there, whatever follows `t`. */
  lemma {:induction false} RunLengthStops(t: string, x: string, member: char -> bool)
    requires !AllSpace(t, member)
    ensures RunLength(t + x, member) == RunLength(t, member) < |t|
    decreases |t|
  {
    assert (t + x)[0] == t[0];
    if member(t[0]) {
      var k :| 0 <= k < |t| && !member(t[k]);
      assert t[1..][k - 1] == t[k];
      assert (t + x)[1..] == t[1..] + x;
      RunLengthStops(t[1..], x, member);
    }
  }

  /** The alternative `FirstWord` settles on is one that starts `s`. */
  lemma {:induction false} FirstWordFound(alternatives: seq<string>, s: string) returns (i: nat)
    requires FirstWord(alternatives, s).Some?
    ensures i < |alternatives| && OccursAt(s, alternatives[i], 0)
    ensures FirstWord(alternatives, s).value == |alternatives[i]|
    decreases |alternatives|
  {
    if OccursAt(s, alternatives[0], 0) {
      i := 0;
    } else {
      var j := FirstWordFound(alternatives[1..], s);
      i := j + 1;
    }
  }

  /** Text with no match anywhere is left as it is. */
  lemma {:induction false} RewriteNoMatch(pat: Pattern, s: string)
    requires Consuming(pat.segs)
    requires forall k :: 0 <= k < |s| ==> Match(pat.segs, s[k..]).None?
    ensures Rewrite(pat, s) == s
    decreases |s|
  {
    if s != [] {
      assert s[0..] == s;
      forall k | 0 <= k < |s| - 1 ensures Match(pat.segs, s[1..][k..]).None? {
        assert s[1..][k..] == s[k + 1..];
      }
      RewriteNoMatch(pat, s[1..]);
      ConsSplit(s);
    }
  }

  /** `re.search(pattern, s) is not None`. */
  predicate Found(segs: seq<Segment>, s: string) {
    exists k | 0 <= k <= |s| :: Match(segs, s[k..]).Some?
  }
}
