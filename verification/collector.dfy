/** The file collector of the offline similarity pipeline: a directory walk,
    given here as the sequence of steps `os.walk` would yield, is filtered
    down to the paths of the files whose name ends with an allow-listed
    extension. */
module Collector {

  /** `SUPPORTED_EXTENSIONS`: two C-family languages, Python and Java. */
  const SupportedExtensions: seq<string> := [".py", ".c", ".cpp", ".java"]

  /** Python's `s.endswith(suffix)`. */
  predicate EndsWith(s: string, suffix: string) {
    |suffix| <= |s| && s[|s| - |suffix|..] == suffix
  }

  /** `any(fname.endswith(ext) for ext in SUPPORTED_EXTENSIONS)`. */
  predicate IsSupported(name: string) {
    exists e | e in SupportedExtensions :: EndsWith(name, e)
  }

  /** One directory visited by the walk: its path and the names of the
      files directly inside it, in the order the walk lists them. */
  datatype WalkStep = WalkStep(root: string, fileNames: seq<string>)

  /** POSIX `os.path.join(root, name)` for two components. */
  function JoinPath(root: string, name: string): (p: string)
    ensures EndsWith(p, name)
    ensures (name == [] || name[0] != '/') ==> root <= p && |p| <= |root| + 1 + |name|
    ensures (name == [] || name[0] != '/') && |p| == |root| + 1 + |name| ==> p[|root|] == '/'
  {
    if |name| > 0 && name[0] == '/' then name
    else if root == [] || root[|root| - 1] == '/' then root + name
    else root + "/" + name
  }

  /** The names of one directory that pass the extension filter, in order. */
  function SupportedNames(names: seq<string>): (r: seq<string>)
    ensures |r| <= |names|
    ensures forall k :: 0 <= k < |r| ==> IsSupported(r[k])
  {
    if names == [] then []
    else
      var rest := SupportedNames(names[1..]);
      if IsSupported(names[0]) then [names[0]] + rest else rest
  }

  /** A name is kept iff it is supported, and it is kept exactly as many
      times as it is listed: the filter drops and adds nothing else. */
  lemma {:induction false} SupportedNamesExact(names: seq<string>)
    ensures forall f :: f in SupportedNames(names) <==> f in names && IsSupported(f)
    ensures forall f :: multiset(SupportedNames(names))[f] == if IsSupported(f) then multiset(names)[f] else 0
  {
    if names != [] {
      SupportedNamesExact(names[1..]);
      assert names == [names[0]] + names[1..];
    }
  }

  /** The filter keeps walk order: filtering a concatenation is the
      concatenation of the filtered parts. */
  lemma {:induction false} SupportedNamesAppend(a: seq<string>, b: seq<string>)
    ensures SupportedNames(a + b) == SupportedNames(a) + SupportedNames(b)
  {
    if a == [] {
      assert a + b == b;
    } else {
      assert (a + b)[0] == a[0];
      assert (a + b)[1..] == a[1..] + b;
      SupportedNamesAppend(a[1..], b);
    }
  }

  /** The paths of `names` under `root`, in order. */
  function PathsUnder(root: string, names: seq<string>): (r: seq<string>)
    ensures |r| == |names|
    ensures forall k :: 0 <= k < |r| ==> r[k] == JoinPath(root, names[k])
  {
    seq(|names|, k requires 0 <= k < |names| => JoinPath(root, names[k]))
  }

  /** `collect_code_files`: for every walk step in order, for every file
      name in order, the joined path when the name is supported. */
  function CollectCodeFiles(walk: seq<WalkStep>): (r: seq<string>)
  {
    if walk == [] then []
    else PathsUnder(walk[0].root, SupportedNames(walk[0].fileNames)) + CollectCodeFiles(walk[1..])
  }

  /** Suffixes compose: a path ending in a name that ends in an extension
      ends in that extension. */
  lemma {:induction false} EndsWithTrans(s: string, t: string, u: string)
    requires EndsWith(s, t) && EndsWith(t, u)
    ensures EndsWith(s, u)
  {
    assert s[|s| - |u|..] == s[|s| - |t|..][|t| - |u|..];
  }

  /** Joining a supported file name to any directory gives a supported path. */
  lemma {:induction false} JoinPathSupported(root: string, name: string)
    requires IsSupported(name)
    ensures IsSupported(JoinPath(root, name))
  {
    var e :| e in SupportedExtensions && EndsWith(name, e);
    EndsWithTrans(JoinPath(root, name), name, e);
  }

  /** Every collected path ends with an allow-listed extension. */
  lemma {:induction false} CollectedAreSupported(walk: seq<WalkStep>)
    ensures forall p :: p in CollectCodeFiles(walk) ==> IsSupported(p)
  {
    if walk != [] {
      var names := SupportedNames(walk[0].fileNames);
      var here := PathsUnder(walk[0].root, names);
      forall k | 0 <= k < |here| ensures IsSupported(here[k]) {
        JoinPathSupported(walk[0].root, names[k]);
      }
      CollectedAreSupported(walk[1..]);
    }
  }

  /** Walk order is kept: collecting a concatenated walk concatenates the
      collected paths. */
  lemma {:induction false} CollectAppend(a: seq<WalkStep>, b: seq<WalkStep>)
    ensures CollectCodeFiles(a + b) == CollectCodeFiles(a) + CollectCodeFiles(b)
  {
    if a == [] {
      assert a + b == b;
    } else {
      assert (a + b)[0] == a[0];
      assert (a + b)[1..] == a[1..] + b;
      CollectAppend(a[1..], b);
    }
  }

  /** Collecting one directory yields exactly its supported names joined to
      its path, in listing order. */
  lemma {:induction false} CollectOneStep(root: string, names: seq<string>)
    ensures CollectCodeFiles([WalkStep(root, names)]) == PathsUnder(root, SupportedNames(names))
  {
    assert [WalkStep(root, names)][1..] == [];
  }

  /** Every supported file of every walk step is collected. */
  lemma {:induction false} SupportedFilesAreCollected(walk: seq<WalkStep>, i: int, f: string)
    requires 0 <= i < |walk| && f in walk[i].fileNames && IsSupported(f)
    ensures JoinPath(walk[i].root, f) in CollectCodeFiles(walk)
  {
    if i == 0 {
      var names := SupportedNames(walk[0].fileNames);
      SupportedNamesExact(walk[0].fileNames);
      var k :| 0 <= k < |names| && names[k] == f;
      assert PathsUnder(walk[0].root, names)[k] == JoinPath(walk[0].root, f);
    } else {
      SupportedFilesAreCollected(walk[1..], i - 1, f);
    }
  }

  /** Nothing else is added: every collected path comes from a supported
      file name of some walk step. */
  lemma {:induction false} CollectedComeFromWalk(walk: seq<WalkStep>, p: string)
    requires p in CollectCodeFiles(walk)
    ensures exists i, f :: 0 <= i < |walk| && f in walk[i].fileNames && IsSupported(f) && p == JoinPath(walk[i].root, f)
  {
    var names := SupportedNames(walk[0].fileNames);
    var here := PathsUnder(walk[0].root, names);
    var rest := CollectCodeFiles(walk[1..]);
    assert CollectCodeFiles(walk) == here + rest;
    if p in here {
      var k :| 0 <= k < |here| && here[k] == p;
      SupportedNamesExact(walk[0].fileNames);
      assert names[k] in names;
      assert 0 <= 0 < |walk| && names[k] in walk[0].fileNames && IsSupported(names[k]) && p == JoinPath(walk[0].root, names[k]);
    } else {
      assert p in rest;
      CollectedComeFromWalk(walk[1..], p);
      var i, f :| 0 <= i < |walk[1..]| && f in walk[1..][i].fileNames && IsSupported(f) && p == JoinPath(walk[1..][i].root, f);
      assert walk[1..][i] == walk[i + 1];
      assert 0 <= i + 1 < |walk| && f in walk[i + 1].fileNames && IsSupported(f) && p == JoinPath(walk[i + 1].root, f);
    }
  }
}
