/** The AI-authorship checker service: one snippet is sent to a language
    model, the model's reply is unwrapped from a Markdown code fence, parsed
    as JSON, and its two probabilities are clamped to [0, 100] and
    normalised to sum to 100; a batch numbers its snippets and summarises
    the successful analyses. The model and the JSON parser are not part of
    this model: the reply and the parser's verdict are inputs. */
module AiChecker {
  import opened Text
  import opened Patterns

  /** Shorter code (after stripping) is refused without asking the model. */
  const MinCodeLength: nat := 10

  /** A probability above this counts towards the "likely" tallies. */
  const LikelyCutoff: real := 70.0

  /** The confidence reported when the reply gives none. */
  const DefaultConfidence: real := 75.0

  /** One field of the parsed reply: absent, a number, or some other JSON
      value (a string, a list, null, ...). */
  datatype Field = Missing | Num(value: real) | NonNum

  /** What parsing the unwrapped reply gives: invalid JSON, JSON that is
      not an object, or an object with the three fields the service reads. */
  datatype Json = Malformed | NotObject | Object(ai: Field, human: Field, confidence: Field)

  /** What asking the model gives: a failure, or the text of its reply. */
  datatype Reply = GenerationFailed | Reply(text: string)

  /** Why an analysis returned an error record. */
  datatype Failure = TooShort | UnparsableReply | AnalysisFailed

  /** The basic statistics attached to a successful analysis. */
  datatype CodeStats = CodeStats(
    totalLines: nat, nonEmptyLines: nat, commentLines: nat, totalCharacters: nat,
    hasFunctions: bool, hasClasses: bool, hasImports: bool)

  /** The result of analysing one snippet. `Raised` is an exception leaving
      the service: the handlers are never reached before the local `import
      json` has run, because evaluating `json.JSONDecodeError` in the first
      handler then fails itself. */
  datatype Analysis =
    | Raised
    | Failed(reason: Failure, ai: real, human: real)
    | Analysed(ai: real, human: real, confidence: Field, stats: CodeStats)

  /** `max(0, min(100, x))`. */
  function Clamp(x: real): (r: real)
    ensures 0.0 <= r <= 100.0
    ensures 0.0 <= x <= 100.0 ==> r == x
    ensures x < 0.0 ==> r == 0.0
    ensures x > 100.0 ==> r == 100.0
  {
    if x > 100.0 then 100.0 else if x < 0.0 then 0.0 else x
  }

  /** Rescales two clamped probabilities to sum to 100, keeping their
      ratio; two zeros become an even split. */
  function Normalize(a: real, h: real): (r: (real, real))
    requires 0.0 <= a <= 100.0 && 0.0 <= h <= 100.0
    ensures 0.0 <= r.0 <= 100.0 && 0.0 <= r.1 <= 100.0
    ensures r.0 + r.1 == 100.0
    ensures r.0 * h == r.1 * a
    ensures a + h == 0.0 ==> r == (50.0, 50.0)
  {
    var total := a + h;
    if total > 0.0 then
      NormalizeFacts(a, h);
      (a / total * 100.0, h / total * 100.0)
    else (50.0, 50.0)
  }

  lemma {:induction false} NormalizeFacts(a: real, h: real)
    requires 0.0 <= a && 0.0 <= h && a + h > 0.0
    ensures a / (a + h) * 100.0 + h / (a + h) * 100.0 == 100.0
    ensures 0.0 <= a / (a + h) * 100.0 <= 100.0 && 0.0 <= h / (a + h) * 100.0 <= 100.0
    ensures (a / (a + h) * 100.0) * h == (h / (a + h) * 100.0) * a
  {
    var t := a + h;
    assert a / t + h / t == 1.0;
    assert a / t <= 1.0 && h / t <= 1.0;
  }

  /** Probabilities that already sum to 100 are kept. */
  lemma {:induction false} NormalizeBalanced(a: real, h: real)
    requires 0.0 <= a <= 100.0 && 0.0 <= h <= 100.0 && a + h == 100.0
    ensures Normalize(a, h) == (a, h)
  {
    assert a / (a + h) * 100.0 == a;
    assert h / (a + h) * 100.0 == h;
  }

  /** Normalising twice changes nothing. */
  lemma {:induction false} NormalizeIdempotent(a: real, h: real)
    requires 0.0 <= a <= 100.0 && 0.0 <= h <= 100.0
    ensures Normalize(Normalize(a, h).0, Normalize(a, h).1) == Normalize(a, h)
  {
    var r := Normalize(a, h);
    NormalizeBalanced(r.0, r.1);
  }

  /** The reply fences: "```json" is tried first, then a bare "```". */
  const JsonFence: string := "```json"
  const Fence: string := "```"

  /** Lines 67-70 of the service on the stripped reply: the text between the
      first fence and the next one, stripped; an unfenced reply is kept. */
  function Unfence(r: string): string {
    if Contains(r, JsonFence) then Strip(Before(Before(After(r, JsonFence), JsonFence), Fence))
    else if Contains(r, Fence) then Strip(Before(Before(After(r, Fence), Fence), Fence))
    else r
  }

  /** The reply as the parser receives it. */
  function CleanReply(text: string): string {
    Unfence(Strip(text))
  }

  lemma {:induction false} ContainsTrans(s: string, r: string, pat: string)
    requires Contains(s, r) && Contains(r, pat)
    ensures Contains(s, pat)
  {
    var i :| 0 <= i <= |s| - |r| && OccursAt(s, r, i);
    var j :| 0 <= j <= |r| - |pat| && OccursAt(r, pat, j);
    forall t | 0 <= t < |pat| ensures s[i + j + t] == pat[t] {
      assert r[j + t] == r[j..j + |pat|][t];
      assert s[i + (j + t)] == s[i..i + |r|][j + t];
    }
    assert s[i + j..i + j + |pat|] == pat;
    assert OccursAt(s, pat, i + j);
  }

  /** Stripping the text before a fence leaves no fence. */
  lemma {:induction false} StrippedPrefixHasNoFence(x: string)
    ensures !Contains(Strip(Before(x, Fence)), Fence)
  {
    BeforeSpec(x, Fence);
    if Contains(Strip(Before(x, Fence)), Fence) {
      ContainsTrans(Before(x, Fence), Strip(Before(x, Fence)), Fence);
    }
  }

  /** Whatever the reply, what reaches the parser holds no code fence. */
  lemma {:induction false} CleanReplyHasNoFence(text: string)
    ensures !Contains(CleanReply(text), Fence)
  {
    var r := Strip(text);
    if Contains(r, JsonFence) {
      StrippedPrefixHasNoFence(Before(After(r, JsonFence), JsonFence));
    } else if Contains(r, Fence) {
      StrippedPrefixHasNoFence(Before(After(r, Fence), Fence));
    }
  }

  /** A pattern whose first character does not occur in `pre` is first
      found right after `pre`. */
  lemma {:induction false} FindAfterCharFree(pre: string, pat: string, rest: string)
    requires pat != [] && pat[0] !in pre
    ensures Find(pre + pat + rest, pat) == Some(|pre|)
  {
    var s := pre + pat + rest;
    assert s[|pre|..|pre| + |pat|] == pat;
    forall j | 0 <= j < |pre| ensures !OccursAt(s, pat, j) {
      assert s[j] == pre[j];
    }
    FindAt(s, pat, |pre|);
  }

  lemma {:induction false} AfterOfFound(pre: string, pat: string, rest: string)
    requires pat != [] && pat[0] !in pre
    ensures Contains(pre + pat + rest, pat) && After(pre + pat + rest, pat) == rest
  {
    FindAfterCharFree(pre, pat, rest);
    assert (pre + pat + rest)[|pre| + |pat|..] == rest;
  }

  lemma {:induction false} BeforeOfFound(pre: string, pat: string, rest: string)
    requires pat != [] && pat[0] !in pre
    ensures Before(pre + pat + rest, pat) == pre
  {
    FindAfterCharFree(pre, pat, rest);
    assert (pre + pat + rest)[..|pre|] == pre;
  }

  lemma {:induction false} ShortHasNoJsonFence(body: string)
    requires '`' !in body
    ensures !Contains(body + Fence, JsonFence)
  {
    var s := body + Fence;
    forall k | 0 <= k <= |s| - |JsonFence| ensures !OccursAt(s, JsonFence, k) {
      assert s[k] == body[k];
    }
  }

  lemma {:induction false} NoTickNoFence(body: string)
    requires '`' !in body
    ensures !Contains(body, Fence) && Before(body, Fence) == body
  {
    forall k | 0 <= k <= |body| - |Fence| ensures !OccursAt(body, Fence, k) {
      assert body[k] in body;
      assert body[k..k + 3][0] == body[k];
    }
    BeforeSpec(body, Fence);
  }

  /** A reply fenced as JSON yields exactly its stripped body. */
  lemma {:induction false} JsonFencedReply(pre: string, body: string)
    requires '`' !in pre && '`' !in body
    ensures Unfence(pre + JsonFence + body + Fence) == Strip(body)
  {
    var r := pre + JsonFence + (body + Fence);
    assert pre + JsonFence + body + Fence == r;
    AfterOfFound(pre, JsonFence, body + Fence);
    ShortHasNoJsonFence(body);
    BeforeSpec(body + Fence, JsonFence);
    assert Before(body + Fence, JsonFence) == body + Fence;
    BeforeOfFound(body, Fence, []);
    assert body + Fence + [] == body + Fence;
  }

  /** A reply in a bare fence yields exactly its stripped body. */
  lemma {:induction false} PlainFencedReply(pre: string, body: string)
    requires '`' !in pre && '`' !in body
    requires !Contains(pre + Fence + body + Fence, JsonFence)
    ensures Unfence(pre + Fence + body + Fence) == Strip(body)
  {
    var r := pre + Fence + (body + Fence);
    assert pre + Fence + body + Fence == r;
    AfterOfFound(pre, Fence, body + Fence);
    BeforeOfFound(body, Fence, []);
    assert body + Fence + [] == body + Fence;
    NoTickNoFence(body);
  }

  /** An unfenced reply reaches the parser unchanged. */
  lemma {:induction false} UnfencedReply(r: string)
    requires !Contains(r, Fence)
    ensures Unfence(r) == r
  {
    if Contains(r, JsonFence) {
      var k :| 0 <= k <= |r| - |JsonFence| && OccursAt(r, JsonFence, k);
      assert r[k..k + 3] == r[k..k + |JsonFence|][..3];
      assert OccursAt(r, Fence, k);
    }
  }

  // Code statistics.

  /** `line.strip()` is non-empty. */
  predicate NonBlankLine(line: string) {
    Strip(line) != []
  }

  /** The stripped line starts with `#` or `//`. */
  predicate CommentLine(line: string) {
    "#" <= Strip(line) || "//" <= Strip(line)
  }

  function CountNonBlank(lines: seq<string>): (n: nat)
    ensures n <= |lines|
  {
    if lines == [] then 0 else (if NonBlankLine(lines[0]) then 1 else 0) + CountNonBlank(lines[1..])
  }

  function CountComments(lines: seq<string>): (n: nat)
    ensures n <= |lines|
  {
    if lines == [] then 0 else (if CommentLine(lines[0]) then 1 else 0) + CountComments(lines[1..])
  }

  /** Counting is additive over the lines of two pieces of text. */
  lemma {:induction false} CountNonBlankAppend(a: seq<string>, b: seq<string>)
    ensures CountNonBlank(a + b) == CountNonBlank(a) + CountNonBlank(b)
    decreases |a|
  {
    if a == [] {
      assert a + b == b;
    } else {
      assert (a + b)[0] == a[0] && (a + b)[1..] == a[1..] + b;
      CountNonBlankAppend(a[1..], b);
    }
  }

  lemma {:induction false} CountCommentsAppend(a: seq<string>, b: seq<string>)
    ensures CountComments(a + b) == CountComments(a) + CountComments(b)
    decreases |a|
  {
    if a == [] {
      assert a + b == b;
    } else {
      assert (a + b)[0] == a[0] && (a + b)[1..] == a[1..] + b;
      CountCommentsAppend(a[1..], b);
    }
  }

  /** A comment line is never blank. */
  lemma {:induction false} CommentsAreNonBlank(lines: seq<string>)
    ensures CountComments(lines) <= CountNonBlank(lines)
  {
    if lines != [] {
      CommentsAreNonBlank(lines[1..]);
      if CommentLine(lines[0]) {
        assert |Strip(lines[0])| >= 1;
      }
    }
  }

  /** `\s+\w+`, with `\w` read as ASCII `[A-Za-z0-9_]`. */
  const SpaceWord: seq<Segment> := [Run(IsPySpace, 1), Run(IsIdentChar, 1)]

  /** `def\s+\w+|function\s+\w+`. */
  const FunctionDecl: seq<Segment> := [Word(["def", "function"])] + SpaceWord

  /** `const\s+\w+\s*=`. */
  const ConstDecl: seq<Segment> := [Word(["const"])] + SpaceWord + [Run(IsPySpace, 0), Word(["="])]

  /** `class\s+\w+`. */
  const ClassDecl: seq<Segment> := [Word(["class"])] + SpaceWord

  /** `import\s+`. */
  const ImportStmt: seq<Segment> := [Word(["import"]), Run(IsPySpace, 1)]

  /** `from\s+\w+\s+import`. */
  const FromImport: seq<Segment> := [Word(["from"])] + SpaceWord + [Run(IsPySpace, 1), Word(["import"])]

  /** `#include|require\(`. */
  const OtherImport: seq<Segment> := [Word(["#include", "require("])]

  /** `_get_code_stats(code)`: the lines are the pieces between `\n`s. */
  function Stats(code: string): CodeStats {
    var lines := Lines(code);
    CodeStats(
      |lines|, CountNonBlank(lines), CountComments(lines), |code|,
      Found(FunctionDecl, code) || Found(ConstDecl, code),
      Found(ClassDecl, code),
      Found(ImportStmt, code) || Found(FromImport, code) || Found(OtherImport, code))
  }

  /** The line counts are ordered, and the line count is one more than the
      number of line feeds. */
  lemma {:induction false} StatsBounds(code: string)
    ensures Stats(code).commentLines <= Stats(code).nonEmptyLines <= Stats(code).totalLines
    ensures Stats(code).totalLines == CountChar(code, '\n') + 1
    ensures Stats(code).totalCharacters == |code|
  {
    LinesShape(code);
    CommentsAreNonBlank(Lines(code));
  }

  /** A match of a pattern that starts with a word puts that word in the
      text. */
  lemma {:induction false} FoundWord(segs: seq<Segment>, w: string, s: string)
    requires segs != [] && segs[0] == Word([w]) && Found(segs, s)
    ensures Contains(s, w)
  {
    var k :| 0 <= k <= |s| && Match(segs, s[k..]).Some?;
    assert SegMatch(segs[0], s[k..]).Some?;
    assert [w][1..] == [];
    assert FirstWord([w], s[k..]).Some?;
    assert OccursAt(s[k..], w, 0);
    assert s[k..][..|w|] == s[k..k + |w|];
    assert OccursAt(s, w, k);
  }

  /** Code is said to have classes only if it contains the word "class". */
  lemma {:induction false} ClassesNeedTheWord(code: string)
    requires Stats(code).hasClasses
    ensures Contains(code, "class")
  {
    FoundWord(ClassDecl, "class", code);
  }

  lemma {:induction false} ClassSlices(p: string, w: string, name: string)
    ensures (p + "class" + w + name)[|p|..] == "class" + (w + name)
    ensures ("class" + (w + name))[5..] == w + name
    ensures (w + name)[|w|..] == name
  {
  }

  /** Whitespace then a word, matched whole. */
  lemma {:induction false} SpaceWordMatch(w: string, name: string)
    requires w != [] && AllSpace(w, IsPySpace)
    requires name != [] && forall i :: 0 <= i < |name| ==> IsIdentChar(name[i])
    ensures Match(SpaceWord, w + name) == Some(|w| + |name|)
  {
    assert !IsPySpace(name[0]);
    RunLengthExact(w, name, IsPySpace);
    RunLengthExact(name, [], IsIdentChar);
    assert name + [] == name;
    assert (w + name)[|w|..] == name;
    assert SpaceWord[1..][1..] == [];
    assert Match(SpaceWord[1..], name) == Some(|name|);
  }

  /** `class`, whitespace and a word anywhere make the code have classes. */
  lemma {:induction false} ClassDetected(p: string, w: string, name: string)
    requires w != [] && AllSpace(w, IsPySpace)
    requires name != [] && forall i :: 0 <= i < |name| ==> IsIdentChar(name[i])
    ensures Stats(p + "class" + w + name).hasClasses
  {
    var s := p + "class" + w + name;
    var t := "class" + (w + name);
    ClassSlices(p, w, name);
    assert OccursAt(t, "class", 0);
    assert SegMatch(ClassDecl[0], t) == Some(5);
    SpaceWordMatch(w, name);
    assert ClassDecl[1..] == SpaceWord;
    assert Match(ClassDecl, s[|p|..]).Some?;
  }

  // One snippet.

  /** A numeric field, or `default` when absent. */
  function NumberOr(f: Field, default: real): real
    requires !f.NonNum?
  {
    match f
    case Missing => default
    case Num(x) => x
  }

  /** Lines 74-99 of the service: what the parsed reply makes of the
      analysis of `code`. */
  function Interpret(j: Json, code: string): (r: Analysis)
    ensures r.Analysed? ==> 0.0 <= r.ai <= 100.0 && 0.0 <= r.human <= 100.0 && r.ai + r.human == 100.0
    ensures r.Analysed? ==> r.confidence != Missing
    ensures r.Analysed? <==> j.Object? && !j.ai.NonNum? && !j.human.NonNum?
    ensures r.Failed? ==> if r.reason == UnparsableReply then r.ai == 50.0 && r.human == 50.0 else r.ai == 0.0 && r.human == 0.0
    ensures j.Malformed? <==> r == Failed(UnparsableReply, 50.0, 50.0)
    ensures !r.Raised?
  {
    match j
    case Malformed => Failed(UnparsableReply, 50.0, 50.0)
    case NotObject => Failed(AnalysisFailed, 0.0, 0.0)
    case Object(ai, human, confidence) =>
      if ai.NonNum? || human.NonNum? then Failed(AnalysisFailed, 0.0, 0.0)
      else
        var p := Normalize(Clamp(NumberOr(ai, 0.0)), Clamp(NumberOr(human, 0.0)));
        Analysed(p.0, p.1, if confidence.Missing? then Num(DefaultConfidence) else confidence, Stats(code))
  }

  /** `analyze_code(code)` with the model's readiness, its reply and the
      parser given as inputs. */
  function Analyze(modelReady: bool, code: string, reply: Reply, parse: string -> Json): (r: Analysis)
    ensures r.Analysed? ==> 0.0 <= r.ai <= 100.0 && 0.0 <= r.human <= 100.0 && r.ai + r.human == 100.0
    ensures r.Analysed? ==> r.confidence != Missing
  {
    if !modelReady then Raised
    else if |Strip(code)| < MinCodeLength then Failed(TooShort, 0.0, 0.0)
    else match reply
      case GenerationFailed => Raised
      case Reply(text) => Interpret(parse(CleanReply(text)), code)
  }

  /** An analysis succeeds exactly when the model is ready, the stripped
      code has at least ten characters, the model replies, and the cleaned
      reply parses to an object whose two probabilities are numbers or
      absent. */
  lemma {:induction false} AnalysedExactly(modelReady: bool, code: string, reply: Reply, parse: string -> Json)
    ensures Analyze(modelReady, code, reply, parse).Analysed? <==>
      modelReady && |Strip(code)| >= MinCodeLength && reply.Reply? &&
      parse(CleanReply(reply.text)).Object? &&
      !parse(CleanReply(reply.text)).ai.NonNum? && !parse(CleanReply(reply.text)).human.NonNum?
  {
  }

  /** Error records carry 50/50 when the reply could not be parsed and 0/0
      otherwise. */
  lemma {:induction false} FailureProbabilities(modelReady: bool, code: string, reply: Reply, parse: string -> Json)
    ensures Analyze(modelReady, code, reply, parse).Failed? ==>
      var r := Analyze(modelReady, code, reply, parse);
      if r.reason == UnparsableReply then r.ai == 50.0 && r.human == 50.0 else r.ai == 0.0 && r.human == 0.0
  {
  }

  /** An analysis raises exactly when there is no model, or when the
      model is asked (the stripped code is long enough) and generation
      fails. */
  lemma {:induction false} AnalyzeRaises(modelReady: bool, code: string, reply: Reply, parse: string -> Json)
    ensures Analyze(modelReady, code, reply, parse).Raised? <==>
      !modelReady || (|Strip(code)| >= MinCodeLength && reply.GenerationFailed?)
  {
    if modelReady && |Strip(code)| >= MinCodeLength && reply.Reply? {
      assert Analyze(modelReady, code, reply, parse) == Interpret(parse(CleanReply(reply.text)), code);
    }
  }

  /** An analysis carries the 50/50 "unparsable" record exactly when the
      model is asked, replies, and the cleaned reply is not JSON. */
  lemma {:induction false} UnparsableExactly(modelReady: bool, code: string, reply: Reply, parse: string -> Json)
    ensures Analyze(modelReady, code, reply, parse) == Failed(UnparsableReply, 50.0, 50.0) <==>
      modelReady && |Strip(code)| >= MinCodeLength && reply.Reply? &&
      parse(CleanReply(reply.text)).Malformed?
  {
  }

  /** Without a model every call raises, whatever the snippet. */
  lemma {:induction false} NoModelRaises(code: string, reply: Reply, parse: string -> Json)
    ensures Analyze(false, code, reply, parse).Raised?
  {
  }

  /** Short code is refused before the model is asked: the reply does not
      matter. */
  lemma {:induction false} ShortCodeNeverAsks(code: string, reply1: Reply, reply2: Reply, parse: string -> Json)
    requires |Strip(code)| < MinCodeLength
    ensures Analyze(true, code, reply1, parse) == Analyze(true, code, reply2, parse) == Failed(TooShort, 0.0, 0.0)
  {
  }

  /** A reply whose two probabilities are within range and already sum to
      100 is reported as given. */
  lemma {:induction false} ConsistentReplyKept(code: string, text: string, parse: string -> Json, a: real, h: real, c: Field)
    requires |Strip(code)| >= MinCodeLength
    requires parse(CleanReply(text)) == Object(Num(a), Num(h), c)
    requires 0.0 <= a <= 100.0 && 0.0 <= h <= 100.0 && a + h == 100.0
    ensures Analyze(true, code, Reply(text), parse).Analysed?
    ensures Analyze(true, code, Reply(text), parse).ai == a
    ensures Analyze(true, code, Reply(text), parse).human == h
  {
    InterpretBalanced(a, h, c, code);
    assert Analyze(true, code, Reply(text), parse) == Interpret(Object(Num(a), Num(h), c), code);
  }

  lemma {:induction false} InterpretBalanced(a: real, h: real, c: Field, code: string)
    requires 0.0 <= a <= 100.0 && 0.0 <= h <= 100.0 && a + h == 100.0
    ensures Interpret(Object(Num(a), Num(h), c), code).Analysed?
    ensures Interpret(Object(Num(a), Num(h), c), code).ai == a
    ensures Interpret(Object(Num(a), Num(h), c), code).human == h
  {
    assert Clamp(a) == a && Clamp(h) == h;
    NormalizeBalanced(a, h);
  }

  // A batch.

  /** One result of a batch, numbered from 1. */
  datatype Numbered = Numbered(snippetId: nat, analysis: Analysis)

  /** `_generate_summary(results)`. */
  datatype Summary =
    | NoSnippets
    | NoValidResults
    | ConfidenceNotNumeric
    | Totals(totalSnippets: nat, analyzedSnippets: nat, averageAi: real, averageHuman: real,
             averageConfidence: real, likelyAiCount: nat, likelyHumanCount: nat)

  /** What `batch_analyze` gives: an exception, or the results and their
      summary. */
  datatype Batch = BatchRaised | Batch(results: seq<Numbered>, summary: Summary)

  /** The analyses without an error record. */
  function Valid(rs: seq<Analysis>): (v: seq<Analysis>)
    ensures |v| <= |rs|
    ensures forall i :: 0 <= i < |v| ==> v[i].Analysed?
  {
    if rs == [] then []
    else (if rs[0].Analysed? then [rs[0]] else []) + Valid(rs[1..])
  }

  function SumAi(v: seq<Analysis>): real
    requires forall i :: 0 <= i < |v| ==> v[i].Analysed?
  {
    if v == [] then 0.0 else v[0].ai + SumAi(v[1..])
  }

  function SumHuman(v: seq<Analysis>): real
    requires forall i :: 0 <= i < |v| ==> v[i].Analysed?
  {
    if v == [] then 0.0 else v[0].human + SumHuman(v[1..])
  }

  /** Whether every confidence is a number, as `sum` needs. */
  predicate NumericConfidences(v: seq<Analysis>)
    requires forall i :: 0 <= i < |v| ==> v[i].Analysed?
  {
    forall i :: 0 <= i < |v| ==> v[i].confidence.Num?
  }

  function SumConfidence(v: seq<Analysis>): real
    requires forall i :: 0 <= i < |v| ==> v[i].Analysed?
    requires NumericConfidences(v)
  {
    if v == [] then 0.0 else v[0].confidence.value + SumConfidence(v[1..])
  }

  function CountLikelyAi(v: seq<Analysis>): (n: nat)
    requires forall i :: 0 <= i < |v| ==> v[i].Analysed?
    ensures n <= |v|
  {
    if v == [] then 0 else (if v[0].ai > LikelyCutoff then 1 else 0) + CountLikelyAi(v[1..])
  }

  function CountLikelyHuman(v: seq<Analysis>): (n: nat)
    requires forall i :: 0 <= i < |v| ==> v[i].Analysed?
    ensures n <= |v|
  {
    if v == [] then 0 else (if v[0].human > LikelyCutoff then 1 else 0) + CountLikelyHuman(v[1..])
  }

  /** Line 148: exactly the analyses without an error record are kept,
      each as often as it occurs. */
  lemma {:induction false} ValidExact(rs: seq<Analysis>)
    ensures forall a: Analysis :: a in Valid(rs) <==> a in rs && a.Analysed?
    ensures forall a: Analysis :: a.Analysed? ==> multiset(Valid(rs))[a] == multiset(rs)[a]
  {
    if rs != [] {
      ValidExact(rs[1..]);
      assert rs == [rs[0]] + rs[1..];
      assert Valid(rs) == (if rs[0].Analysed? then [rs[0]] else []) + Valid(rs[1..]);
    }
  }

  /** Each analysis without an error record keeps its place: the filter
      distributes over concatenation. */
  lemma {:induction false} ValidAppend(a: seq<Analysis>, b: seq<Analysis>)
    ensures Valid(a + b) == Valid(a) + Valid(b)
    decreases |a|
  {
    if a == [] {
      assert a + b == b;
    } else {
      assert (a + b)[0] == a[0];
      assert (a + b)[1..] == a[1..] + b;
      ValidAppend(a[1..], b);
    }
  }

  function Summarize(rs: seq<Analysis>): Summary {
    var v := Valid(rs);
    if rs == [] then NoSnippets
    else if v == [] then NoValidResults
    else if !NumericConfidences(v) then ConfidenceNotNumeric
    else
      var n := |v| as real;
      Totals(|rs|, |v|, SumAi(v) / n, SumHuman(v) / n, SumConfidence(v) / n, CountLikelyAi(v), CountLikelyHuman(v))
  }

  /** Probabilities as `Analyze` produces them. */
  predicate WellFormed(v: seq<Analysis>)
    requires forall i :: 0 <= i < |v| ==> v[i].Analysed?
  {
    forall i :: 0 <= i < |v| ==> 0.0 <= v[i].ai <= 100.0 && 0.0 <= v[i].human <= 100.0 && v[i].ai + v[i].human == 100.0
  }

  lemma {:induction false} TailWellFormed(v: seq<Analysis>)
    requires v != [] && forall i :: 0 <= i < |v| ==> v[i].Analysed?
    requires WellFormed(v)
    ensures forall i :: 0 <= i < |v[1..]| ==> v[1..][i].Analysed?
    ensures WellFormed(v[1..])
  {
    forall i | 0 <= i < |v[1..]| ensures v[1..][i] == v[i + 1] {
    }
  }

  /** The sums of the two probabilities add up to 100 per analysis, and
      each lies between 0 and 100 per analysis. */
  lemma {:induction false} SumsBalance(v: seq<Analysis>)
    requires forall i :: 0 <= i < |v| ==> v[i].Analysed?
    requires WellFormed(v)
    ensures SumAi(v) + SumHuman(v) == 100.0 * (|v| as real)
    ensures 0.0 <= SumAi(v) <= 100.0 * (|v| as real)
  {
    if v != [] {
      TailWellFormed(v);
      SumsBalance(v[1..]);
    }
  }

  /** No analysis counts as both likely AI and likely human. */
  lemma {:induction false} LikelyDisjoint(v: seq<Analysis>)
    requires forall i :: 0 <= i < |v| ==> v[i].Analysed?
    requires WellFormed(v)
    ensures CountLikelyAi(v) + CountLikelyHuman(v) <= |v|
  {
    if v != [] {
      TailWellFormed(v);
      LikelyDisjoint(v[1..]);
    }
  }

  lemma {:induction false} AverageFacts(sa: real, sh: real, n: real)
    requires n > 0.0 && sa + sh == 100.0 * n && 0.0 <= sa <= 100.0 * n
    ensures sa / n + sh / n == 100.0
    ensures 0.0 <= sa / n <= 100.0
  {
    assert sa / n + sh / n == (sa + sh) / n;
  }

  /** Which summary a list of results gets: `{}` exactly for no results,
      the error dict exactly when every result is an error record, and
      otherwise the totals count every result and every analysis without
      an error record. */
  lemma {:induction false} SummaryShape(rs: seq<Analysis>)
    ensures Summarize(rs).NoSnippets? <==> rs == []
    ensures Summarize(rs).NoValidResults? <==> rs != [] && forall i :: 0 <= i < |rs| ==> !rs[i].Analysed?
    ensures Summarize(rs).ConfidenceNotNumeric? <==> Valid(rs) != [] && !NumericConfidences(Valid(rs))
    ensures Summarize(rs).Totals? ==>
      Summarize(rs).totalSnippets == |rs| && Summarize(rs).analyzedSnippets == |Valid(rs)| &&
      Summarize(rs).totalSnippets - Summarize(rs).analyzedSnippets == CountFailed(rs)
  {
    ValidExact(rs);
    ValidCount(rs);
    if rs != [] && Valid(rs) == [] {
      forall i | 0 <= i < |rs| ensures !rs[i].Analysed? {
        assert rs[i] in rs;
      }
    }
  }

  /** The number of results that are not successful analyses. */
  function CountFailed(rs: seq<Analysis>): (n: nat)
    ensures n <= |rs|
    ensures n == 0 <==> forall i :: 0 <= i < |rs| ==> rs[i].Analysed?
  {
    if rs == [] then 0
    else
      assert forall i :: 1 <= i < |rs| ==> rs[i] == rs[1..][i - 1];
      (if rs[0].Analysed? then 0 else 1) + CountFailed(rs[1..])
  }

  /** The kept analyses and the others make up the whole list. */
  lemma {:induction false} ValidCount(rs: seq<Analysis>)
    ensures |Valid(rs)| + CountFailed(rs) == |rs|
  {
    if rs != [] {
      ValidCount(rs[1..]);
    }
  }

  /** The sums over analyses that all carry the same pair of
      probabilities. */
  lemma {:induction false} SumsUniform(v: seq<Analysis>, a: real, h: real)
    requires forall i :: 0 <= i < |v| ==> v[i].Analysed? && v[i].ai == a && v[i].human == h
    ensures SumAi(v) == (|v| as real) * a && SumHuman(v) == (|v| as real) * h
  {
    if v != [] {
      assert forall i :: 0 <= i < |v[1..]| ==> v[1..][i] == v[i + 1];
      SumsUniform(v[1..], a, h);
    }
  }

  /** The averages are means: when every analysis without an error record
      carries the same probabilities, the averages are those probabilities. */
  lemma {:induction false} SummaryOfUniform(rs: seq<Analysis>, a: real, h: real)
    requires forall i :: 0 <= i < |Valid(rs)| ==> Valid(rs)[i].ai == a && Valid(rs)[i].human == h
    requires Summarize(rs).Totals?
    ensures Summarize(rs).averageAi == a && Summarize(rs).averageHuman == h
  {
    var v := Valid(rs);
    SumsUniform(v, a, h);
    MeanOfUniform(|v| as real, a);
    MeanOfUniform(|v| as real, h);
  }

  lemma {:induction false} MeanOfUniform(n: real, a: real)
    requires n > 0.0
    ensures (n * a) / n == a
  {
  }

  /** The summary of well-formed analyses: the averages lie in [0, 100]
      and add up to 100, and the tallies never exceed the analysed count. */
  lemma {:induction false} SummaryBounds(rs: seq<Analysis>)
    requires forall i :: 0 <= i < |Valid(rs)| ==> Valid(rs)[i].Analysed?
    requires WellFormed(Valid(rs))
    requires Summarize(rs).Totals?
    ensures Summarize(rs).analyzedSnippets <= Summarize(rs).totalSnippets
    ensures 0.0 <= Summarize(rs).averageAi <= 100.0
    ensures Summarize(rs).averageAi + Summarize(rs).averageHuman == 100.0
    ensures Summarize(rs).likelyAiCount + Summarize(rs).likelyHumanCount <= Summarize(rs).analyzedSnippets
  {
    var v := Valid(rs);
    SumsBalance(v);
    LikelyDisjoint(v);
    AverageFacts(SumAi(v), SumHuman(v), |v| as real);
  }

  /** The analyses of a batch, snippet by snippet. */
  function AnalyzeAll(modelReady: bool, snippets: seq<string>, replies: seq<Reply>, parse: string -> Json): (r: seq<Analysis>)
    requires |replies| == |snippets|
    ensures |r| == |snippets|
  {
    seq(|snippets|, i requires 0 <= i < |snippets| => Analyze(modelReady, snippets[i], replies[i], parse))
  }

  /** Every analysis of the service is well formed. */
  lemma {:induction false} ServiceWellFormed(rs: seq<Analysis>, modelReady: bool, snippets: seq<string>, replies: seq<Reply>, parse: string -> Json)
    requires |replies| == |snippets| && rs == AnalyzeAll(modelReady, snippets, replies, parse)
    ensures forall i :: 0 <= i < |Valid(rs)| ==> Valid(rs)[i].Analysed?
    ensures WellFormed(Valid(rs))
  {
    ValidExact(rs);
    var v := Valid(rs);
    forall i | 0 <= i < |v| ensures 0.0 <= v[i].ai <= 100.0 && 0.0 <= v[i].human <= 100.0 && v[i].ai + v[i].human == 100.0 {
      assert v[i] in rs;
      var j :| 0 <= j < |rs| && rs[j] == v[i];
      assert rs[j] == Analyze(modelReady, snippets[j], replies[j], parse);
    }
  }

  /** The loop of `batch_analyze`: number the analyses from 1, stopping at
      the first one that raised. */
  method NumberAnalyses(all: seq<Analysis>) returns (results: seq<Numbered>, raised: bool)
    ensures raised <==> Raised in all
    ensures !raised ==> |results| == |all|
    ensures !raised ==> forall k :: 0 <= k < |all| ==> results[k] == Numbered(k + 1, all[k])
  {
    results := [];
    var i := 0;
    while i < |all|
      invariant 0 <= i <= |all| && |results| == i
      invariant forall k :: 0 <= k < i ==> results[k] == Numbered(k + 1, all[k])
      invariant Raised !in all[..i]
    {
      if all[i].Raised? {
        return results, true;
      }
      assert all[..i + 1] == all[..i] + [all[i]];
      results := results + [Numbered(i + 1, all[i])];
      i := i + 1;
    }
    assert all[..i] == all;
    raised := false;
  }

  /** `batch_analyze`: every snippet analysed in turn, numbered from 1, then
      summarised; an exception from any analysis, or from averaging the
      confidences, escapes the whole batch. */
  method BatchAnalyze(modelReady: bool, snippets: seq<string>, replies: seq<Reply>, parse: string -> Json) returns (b: Batch)
    requires |replies| == |snippets|
    ensures b.BatchRaised? <==>
      Raised in AnalyzeAll(modelReady, snippets, replies, parse) ||
      Summarize(AnalyzeAll(modelReady, snippets, replies, parse)).ConfidenceNotNumeric?
    ensures b.Batch? ==> |b.results| == |snippets|
    ensures b.Batch? ==> forall i :: 0 <= i < |snippets| ==>
      b.results[i] == Numbered(i + 1, Analyze(modelReady, snippets[i], replies[i], parse))
    ensures b.Batch? ==> b.summary == Summarize(AnalyzeAll(modelReady, snippets, replies, parse))
  {
    var all := AnalyzeAll(modelReady, snippets, replies, parse);
    var results, raised := NumberAnalyses(all);
    if raised {
      return BatchRaised;
    }
    var summary := Summarize(all);
    if summary.ConfidenceNotNumeric? {
      return BatchRaised;
    }
    b := Batch(results, summary);
  }
}
