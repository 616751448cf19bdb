/** Per-file preprocessing of the offline similarity pipeline: the extension
    is taken from the path as POSIX `os.path.splitext` takes it, comments
    and blank lines are removed for that extension, then identifiers are
    canonicalised for it. Reading the file is left to the caller, who passes
    its text in. */
module Preprocess {
  import opened Text
  import opened Collector
  import opened Comments
  import opened Patterns
  import opened Names

  /** `s.rfind(c)`: the last position holding `c`, or -1. */
  function LastIndex(s: string, c: char): (r: int)
    ensures -1 <= r < |s|
    ensures r >= 0 ==> s[r] == c
    ensures forall k :: r < k < |s| ==> s[k] != c
    decreases |s|
  {
    if s == [] then -1
    else if s[|s| - 1] == c then |s| - 1
    else LastIndex(s[..|s| - 1], c)
  }

  /** `os.path.basename(path)`: everything after the last `/`. */
  function Basename(path: string): string {
    path[LastIndex(path, '/') + 1..]
  }

  /** The base name is a `/`-free tail of the path. */
  lemma {:induction false} BasenameSpec(path: string)
    ensures '/' !in Basename(path)
    ensures EndsWith(path, Basename(path))
  {
    var i := LastIndex(path, '/');
    var r := path[i + 1..];
    forall k | 0 <= k < |r| ensures r[k] != '/' {
      assert r[k] == path[i + 1 + k];
    }
  }

  /** Whether a non-dot character lies strictly between positions `from`
      and `to` of `s`. */
  predicate HasStem(s: string, from: int, to: int)
    requires -1 <= from && to <= |s|
  {
    exists k | from < k < to :: s[k] != '.'
  }

  /** Where POSIX `os.path.splitext` cuts `path`: at the last dot when that
      dot lies in the last component and something other than dots comes
      before it there, otherwise at the end. */
  function ExtStart(path: string): (r: nat)
    ensures r <= |path|
  {
    var slash := LastIndex(path, '/');
    var dot := LastIndex(path, '.');
    if dot > slash && HasStem(path, slash, dot) then dot else |path|
  }

  /** `os.path.splitext(path)`: the root and the extension. */
  function SplitExt(path: string): (r: (string, string))
    ensures r.0 + r.1 == path
    ensures r.1 == [] || (r.1[0] == '.' && '.' !in r.1[1..] && '/' !in r.1)
  {
    var i := ExtStart(path);
    var slash := LastIndex(path, '/');
    var dot := LastIndex(path, '.');
    assert i < |path| ==> i == dot && slash < dot;
    assert forall k :: 0 <= k < |path| - i ==> path[i..][k] == path[i + k];
    assert path[..i] + path[i..] == path;
    (path[..i], path[i..])
  }

  /** The extension alone. */
  function Extension(path: string): string {
    SplitExt(path).1
  }

  /** `preprocess_file(path)`, given the file's text. */
  function PreprocessFile(path: string, content: string): string {
    var ext := Extension(path);
    NormalizeNames(RemoveCommentsAndEmptyLines(content, ext), ext)
  }

  lemma {:induction false} LastIndexAppend(a: string, b: string, c: char)
    requires c !in b
    ensures LastIndex(a + b, c) == LastIndex(a, c)
    decreases |b|
  {
    if b == [] {
      assert a + b == a;
    } else {
      assert (a + b)[..|a + b| - 1] == a + b[..|b| - 1];
      assert (a + b)[|a + b| - 1] == b[|b| - 1];
      LastIndexAppend(a, b[..|b| - 1], c);
    }
  }

  lemma {:induction false} LastIndexAfter(a: string, b: string, c: char)
    requires c in b
    ensures LastIndex(a + b, c) == |a| + LastIndex(b, c)
  {
    var i := LastIndex(b, c);
    assert (a + b)[|a| + i] == c;
  }

  /** The base name of a joined path is the file name that was joined. */
  lemma {:induction false} BasenameOfJoin(root: string, name: string)
    requires '/' !in name
    ensures Basename(JoinPath(root, name)) == name
  {
    var p := JoinPath(root, name);
    var i := LastIndex(p, '/');
    if root == [] || root[|root| - 1] == '/' {
      if root == [] {
        assert p == name;
      } else {
        LastIndexAppend(root, name, '/');
        assert p[i + 1..] == name;
      }
    } else {
      LastIndexAppend(root + "/", name, '/');
      assert p == (root + "/") + name;
      assert p[i + 1..] == name;
    }
  }

  lemma {:induction false} HasStemShift(d: string, name: string, dot: int)
    requires -1 <= dot <= |name|
    ensures HasStem(d + name, |d| - 1, |d| + dot) <==> HasStem(name, -1, dot)
  {
    var p := d + name;
    if HasStem(name, -1, dot) {
      var k :| -1 < k < dot && name[k] != '.';
      assert p[|d| + k] == name[k];
    }
    if HasStem(p, |d| - 1, |d| + dot) {
      var k :| |d| - 1 < k < |d| + dot && p[k] != '.';
      assert name[k - |d|] == p[k];
    }
  }

  /** Behind a directory part ending in `/`, the cut falls where it falls
      in the last component alone. */
  lemma {:induction false} ExtStartShift(d: string, name: string)
    requires d != [] && d[|d| - 1] == '/' && '/' !in name
    ensures ExtStart(d + name) == |d| + ExtStart(name)
  {
    var p := d + name;
    LastIndexAppend(d, name, '/');
    assert LastIndex(name, '/') == -1;
    if '.' in name {
      LastIndexAfter(d, name, '.');
      HasStemShift(d, name, LastIndex(name, '.'));
    } else {
      LastIndexAppend(d, name, '.');
      assert LastIndex(d, '.') < |d| - 1;
    }
  }

  /** Only the last component decides the extension. */
  lemma {:induction false} ExtensionOfLastComponent(dir: string, name: string)
    requires '/' !in name
    ensures Extension(dir + "/" + name) == Extension(name)
  {
    var d := dir + "/";
    assert dir + "/" + name == d + name;
    ExtStartShift(d, name);
    var i := ExtStart(name);
    assert (d + name)[|d| + i..] == name[i..];
  }

  /** A name with a stem keeps the text from its last dot as extension. */
  lemma {:induction false} ExtensionAfterStem(stem: string, x: string)
    requires '/' !in stem && '/' !in x && '.' !in x
    requires exists k | 0 <= k < |stem| :: stem[k] != '.'
    ensures Extension(stem + "." + x) == "." + x
  {
    var p := stem + "." + x;
    assert p == stem + ("." + x);
    LastIndexAppend(stem, "." + x, '/');
    assert LastIndex(p, '/') == -1 by {
      assert '/' !in "." + x;
    }
    LastIndexAfter(stem, "." + x, '.');
    assert LastIndex("." + x, '.') == 0 by {
      assert forall k :: 0 < k < |"." + x| ==> ("." + x)[k] == x[k - 1];
    }
    var k :| 0 <= k < |stem| && stem[k] != '.';
    assert p[k] == stem[k];
    assert p[|stem|..] == "." + x;
  }

  /** A name made of dots and then a dot-free word has no extension: a
      file called ".py" is collected, yet preprocessed as if it had none. */
  lemma {:induction false} HiddenNameHasNoExtension(dots: string, x: string)
    requires forall k :: 0 <= k < |dots| ==> dots[k] == '.'
    requires '/' !in x && '.' !in x
    ensures Extension(dots + x) == ""
  {
    var p := dots + x;
    LastIndexAppend(dots, x, '/');
    assert LastIndex(dots, '/') == -1;
    LastIndexAppend(dots, x, '.');
    var dot := LastIndex(p, '.');
    assert !HasStem(p, -1, dot) by {
      forall k | -1 < k < dot ensures p[k] == '.' {
        assert p[k] == dots[k];
      }
    }
  }

  /** A file name that ends in ".py" after a stem is preprocessed as Python. */
  lemma {:induction false} PythonFileExtension(dir: string, stem: string)
    requires '/' !in stem && exists k | 0 <= k < |stem| :: stem[k] != '.'
    ensures Extension(dir + "/" + (stem + ".py")) == ".py"
  {
    assert '/' !in stem + ".py" by {
      assert forall k :: 0 <= k < 3 ==> (stem + ".py")[|stem| + k] == ".py"[k];
    }
    ExtensionOfLastComponent(dir, stem + ".py");
    ExtensionAfterStem(stem, "py");
    assert stem + "." + "py" == stem + ".py";
  }

  /** Python files come out of preprocessing without any `#`: comment
      removal drops every one, and the renamings add none. */
  lemma {:induction false} PreprocessedPythonHasNoHash(path: string, content: string)
    requires Extension(path) == ".py"
    ensures '#' !in PreprocessFile(path, content)
  {
    var cleaned := RemoveCommentsAndEmptyLines(content, ".py");
    PythonHasNoHash(content);
    HashFreeReplacements();
    PythonNamesKeepOut(cleaned, '#');
  }

  lemma {:induction false} HashFreeReplacements()
    ensures '#' !in "def func" && '#' !in "var ="
  {
  }

  /** A file whose extension is none of the four languages only loses C-style
      comments and blank lines: its identifiers are left alone. */
  lemma {:induction false} OtherFilesKeepNames(path: string, content: string)
    requires Extension(path) != ".py" && Extension(path) !in CFamily
    ensures PreprocessFile(path, content) == RemoveEmptyLines(StripBlockComments(StripLineComments(content)))
  {
  }
}
