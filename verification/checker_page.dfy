/** The state logic of the checker page: the list of code snippets edited
    in batch mode, the colour band of a percentage, and which snippets are
    sent for analysis. Rendering and the HTTP requests themselves are left
    out; a request is represented by the payload that would be posted. */
module CheckerPage {
  import opened Text
  import AiChecker

  const Red := "#e74c3c"
  const Orange := "#f39c12"
  const Green := "#27ae60"

  /** `getResultColor(percentage)`. */
  function ResultColor(p: real): (r: string)
    ensures r == Red <==> p > 70.0
    ensures r == Orange <==> 50.0 < p <= 70.0
    ensures r == Green <==> p <= 50.0
  {
    if p > 70.0 then Red
    else if p > 50.0 then Orange
    else Green
  }

  /** The bands in order of alarm. */
  function Alarm(colour: string): nat {
    if colour == Red then 2 else if colour == Orange then 1 else 0
  }

  /** A higher percentage never gets a calmer colour. */
  lemma {:induction false} ColorMonotone(p: real, q: real)
    requires p <= q
    ensures Alarm(ResultColor(p)) <= Alarm(ResultColor(q))
  {
  }

  /** The red band is exactly what the service's summary counts as likely
      AI-written. */
  lemma {:induction false} RedMeansLikelyAi(p: real)
    ensures ResultColor(p) == Red <==> p > AiChecker.LikelyCutoff
  {
  }

  /** The snippet list when the page opens. */
  const InitialSnippets: seq<string> := [""]

  /** `addSnippet()`. */
  function AddSnippet(s: seq<string>): (r: seq<string>)
    ensures |r| == |s| + 1
    ensures r[..|s|] == s && r[|s|] == ""
  {
    s + [""]
  }

  /** `codeSnippets.filter((_, i) => i !== index)`, walking from position
      `from`. */
  function DropIndex(s: seq<string>, index: int, from: int): (r: seq<string>)
    decreases |s|
  {
    if s == [] then []
    else (if from == index then [] else [s[0]]) + DropIndex(s[1..], index, from + 1)
  }

  /** `removeSnippet(index)`. */
  function RemoveSnippet(s: seq<string>, index: int): seq<string> {
    DropIndex(s, index, 0)
  }

  lemma {:induction false} DropIndexMissing(s: seq<string>, index: int, from: int)
    requires index < from || index >= from + |s|
    ensures DropIndex(s, index, from) == s
    decreases |s|
  {
    if s != [] {
      DropIndexMissing(s[1..], index, from + 1);
      assert [s[0]] + s[1..] == s;
    }
  }

  lemma {:induction false} DropIndexAt(s: seq<string>, index: int, from: int)
    requires from <= index < from + |s|
    ensures DropIndex(s, index, from) == s[..index - from] + s[index - from + 1..]
    decreases |s|
  {
    if from == index {
      DropIndexMissing(s[1..], index, from + 1);
      assert s[..0] + s[1..] == s[1..];
    } else {
      DropIndexAt(s[1..], index, from + 1);
      assert [s[0]] + (s[1..][..index - from - 1] + s[1..][index - from..]) ==
        s[..index - from] + s[index - from + 1..];
    }
  }

  /** Removing drops exactly the entry at `index` and keeps the others in
      order; an index outside the list changes nothing. */
  lemma {:induction false} RemoveSnippetSpec(s: seq<string>, index: int)
    ensures 0 <= index < |s| ==> RemoveSnippet(s, index) == s[..index] + s[index + 1..]
    ensures !(0 <= index < |s|) ==> RemoveSnippet(s, index) == s
    ensures 0 <= index < |s| ==> |RemoveSnippet(s, index)| == |s| - 1
  {
    if 0 <= index < |s| {
      DropIndexAt(s, index, 0);
    } else {
      DropIndexMissing(s, index, 0);
    }
  }

  /** `updateSnippet(index, value)` at a rendered position. */
  function UpdateSnippet(s: seq<string>, index: int, value: string): (r: seq<string>)
    requires 0 <= index < |s|
    ensures |r| == |s| && r[index] == value
    ensures forall j :: 0 <= j < |s| && j != index ==> r[j] == s[j]
  {
    s[index := value]
  }

  /** Writing back what is there changes nothing, and of two writes to the
      same position the later one wins. */
  lemma {:induction false} UpdateLaws(s: seq<string>, index: int, v: string, w: string)
    requires 0 <= index < |s|
    ensures UpdateSnippet(s, index, s[index]) == s
    ensures UpdateSnippet(UpdateSnippet(s, index, v), index, w) == UpdateSnippet(s, index, w)
  {
  }

  /** What a user can do with the list: the add button, the remove button
      of snippet `i`, or typing into snippet `i`. */
  datatype Action = Add | Remove(i: int) | Edit(i: int, text: string)

  /** Whether the page offers the action: the remove buttons are rendered
      only while there is more than one snippet, and buttons and text areas
      exist only for rendered positions. */
  predicate Offered(s: seq<string>, a: Action) {
    match a
    case Add => true
    case Remove(i) => |s| > 1 && 0 <= i < |s|
    case Edit(i, _) => 0 <= i < |s|
  }

  /** The list after an action; an action the page does not offer cannot
      happen and leaves the list as it is. */
  function Apply(s: seq<string>, a: Action): seq<string> {
    if !Offered(s, a) then s
    else match a
      case Add => AddSnippet(s)
      case Remove(i) => RemoveSnippet(s, i)
      case Edit(i, text) => UpdateSnippet(s, i, text)
  }

  /** The list after a session of actions. */
  function Replay(s: seq<string>, actions: seq<Action>): seq<string>
    decreases |actions|
  {
    if actions == [] then s else Replay(Apply(s, actions[0]), actions[1..])
  }

  /** One action never empties a non-empty list. */
  lemma {:induction false} ApplyKeepsSnippet(s: seq<string>, a: Action)
    requires s != []
    ensures Apply(s, a) != []
  {
    if Offered(s, a) && a.Remove? {
      RemoveSnippetSpec(s, a.i);
    }
  }

  /** Whatever the user does, the page always shows at least one snippet. */
  lemma {:induction false} NeverEmpty(actions: seq<Action>)
    ensures Replay(InitialSnippets, actions) != []
  {
    ReplayKeepsSnippet(InitialSnippets, actions);
  }

  lemma {:induction false} ReplayKeepsSnippet(s: seq<string>, actions: seq<Action>)
    requires s != []
    ensures Replay(s, actions) != []
    decreases |actions|
  {
    if actions != [] {
      ApplyKeepsSnippet(s, actions[0]);
      ReplayKeepsSnippet(Apply(s, actions[0]), actions[1..]);
    }
  }

  /** `snippet.trim()` is truthy. */
  predicate NonBlank(snippet: string) {
    Trim(snippet, IsJsSpace) != ""
  }

  /** `codeSnippets.filter(snippet => snippet.trim())`. */
  function ValidSnippets(s: seq<string>): seq<string> {
    if s == [] then []
    else (if NonBlank(s[0]) then [s[0]] else []) + ValidSnippets(s[1..])
  }

  /** The snippets sent are exactly the non-blank ones: no more of them
      than there were snippets, each one non-blank and taken from the list,
      and every non-blank snippet among them. */
  lemma {:induction false} ValidSpec(s: seq<string>)
    ensures |ValidSnippets(s)| <= |s|
    ensures forall x :: x in ValidSnippets(s) <==> x in s && NonBlank(x)
    decreases |s|
  {
    if s != [] {
      var head := if NonBlank(s[0]) then [s[0]] else [];
      var rest := ValidSnippets(s[1..]);
      ValidSpec(s[1..]);
      assert ValidSnippets(s) == head + rest;
      forall x ensures x in head + rest <==> x in s && NonBlank(x) {
        assert x in s <==> x == s[0] || x in s[1..];
      }
    }
  }

  /** Filtering distributes over concatenation, so the kept snippets stay
      in their original order. */
  lemma {:induction false} ValidAppend(a: seq<string>, b: seq<string>)
    ensures ValidSnippets(a + b) == ValidSnippets(a) + ValidSnippets(b)
    decreases |a|
  {
    if a == [] {
      assert a + b == b;
    } else {
      var head := if NonBlank(a[0]) then [a[0]] else [];
      ValidStep(a, b);
      ValidAppend(a[1..], b);
      SnippetsAssoc(head, ValidSnippets(a[1..]), ValidSnippets(b));
    }
  }

  lemma {:induction false} ValidStep(a: seq<string>, b: seq<string>)
    requires a != []
    ensures ValidSnippets(a + b) == (if NonBlank(a[0]) then [a[0]] else []) + ValidSnippets(a[1..] + b)
  {
    assert (a + b)[0] == a[0];
    assert (a + b)[1..] == a[1..] + b;
  }

  lemma {:induction false} SnippetsAssoc(x: seq<string>, y: seq<string>, z: seq<string>)
    ensures x + (y + z) == (x + y) + z
  {
  }

  /** A list without blank snippets is sent as it is. */
  lemma {:induction false} NoBlankKeepsAll(s: seq<string>)
    requires forall k :: 0 <= k < |s| ==> NonBlank(s[k])
    ensures ValidSnippets(s) == s
    decreases |s|
  {
    if s != [] {
      NoBlankKeepsAll(s[1..]);
      assert [s[0]] + s[1..] == s;
    }
  }

  /** `analyzeBatch()`: the snippets posted, or None when no request is
      made because every snippet is blank. */
  function BatchRequest(s: seq<string>): (r: Option<seq<string>>)
    ensures r.None? <==> forall k :: 0 <= k < |s| ==> !NonBlank(s[k])
    ensures r.Some? ==> r.value == ValidSnippets(s) && r.value != []
  {
    var v := ValidSnippets(s);
    ValidSpec(s);
    assert v == [] <==> forall k :: 0 <= k < |s| ==> !NonBlank(s[k]) by {
      if v != [] {
        assert v[0] in v;
      }
    }
    if v == [] then None else Some(v)
  }

  /** `analyzeCode()`: the code posted, or None for blank code. */
  function CodeRequest(code: string): (r: Option<string>)
    ensures r.None? <==> AllSpace(code, IsJsSpace)
    ensures r.Some? ==> r.value == code
  {
    if !NonBlank(code) then None else Some(code)
  }
}
