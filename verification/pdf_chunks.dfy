/** The word chunker of the PDF question-answering service: the text is
    split into words, the words are cut into consecutive groups of at most
    `chunk_size`, and each group is joined back with single spaces. The
    question context is the first five chunks, one per line. Reading the PDF
    and asking the model are left to the caller. */
module Chunks {
  import opened Text

  /** The default `chunk_size`. */
  const DefaultChunkSize := 500

  /** The number of chunks that make up the question context. */
  const ContextChunks := 5

  function Min(a: int, b: int): int {
    if a <= b then a else b
  }

  /** The reference grouping: consecutive groups of `size` words, the last
      one holding what is left. */
  function Groups(ws: seq<string>, size: nat): seq<seq<string>>
    requires size > 0
    decreases |ws|
  {
    if ws == [] then []
    else if |ws| <= size then [ws]
    else [ws[..size]] + Groups(ws[size..], size)
  }

  /** Every group joined with single spaces. */
  function JoinEach(gs: seq<seq<string>>): (r: seq<string>)
    ensures |r| == |gs|
  {
    seq(|gs|, k requires 0 <= k < |gs| => Join(gs[k], " "))
  }

  /** The words of the chunks, one chunk after the other. */
  function ChunkWords(chunks: seq<string>): seq<string> {
    if chunks == [] then [] else Words(chunks[0]) + ChunkWords(chunks[1..])
  }

  /** The groups, one after the other. */
  function Concat(gs: seq<seq<string>>): seq<string> {
    if gs == [] then [] else gs[0] + Concat(gs[1..])
  }

  /** `create_chunks(text, chunk_size)`: `range(0, len(words), chunk_size)`
      raises for a step of 0 (None here) and is empty for a negative step. */
  method CreateChunks(text: string, chunkSize: int) returns (r: Option<seq<string>>)
    ensures r.None? <==> chunkSize == 0
    ensures chunkSize < 0 ==> r == Some([])
    ensures chunkSize > 0 ==> r == Some(JoinEach(Groups(Words(text), chunkSize)))
  {
    if chunkSize == 0 {
      return None;
    }
    var words := Words(text);
    var chunks: seq<string> := [];
    if chunkSize < 0 {
      return Some(chunks);
    }
    var i := 0;
    ChunkStart(words, chunkSize);
    while i < |words|
      invariant 0 <= i
      invariant ChunkedUpTo(words, chunkSize, i, chunks)
      decreases |words| - i
    {
      var chunk := Join(words[i..Min(i + chunkSize, |words|)], " ");
      ChunkStep(words, i, chunkSize, chunks);
      chunks := chunks + [chunk];
      i := i + chunkSize;
    }
    ChunkDone(words, chunkSize, i, chunks);
    r := Some(chunks);
  }

  /** The loop invariant: the chunks made so far, followed by the chunks
      of the words from `i` on, are all the chunks. */
  predicate ChunkedUpTo(words: seq<string>, size: nat, i: nat, chunks: seq<string>)
    requires size > 0
  {
    chunks + JoinEach(Groups(words[Min(i, |words|)..], size)) == JoinEach(Groups(words, size))
  }

  lemma {:induction false} ChunkStart(words: seq<string>, size: nat)
    requires size > 0
    ensures ChunkedUpTo(words, size, 0, [])
  {
    assert words[0..] == words;
  }

  /** The loop invariant survives one turn. */
  lemma {:induction false} ChunkStep(words: seq<string>, i: nat, size: nat, chunks: seq<string>)
    requires size > 0 && i < |words|
    requires ChunkedUpTo(words, size, i, chunks)
    ensures ChunkedUpTo(words, size, i + size, chunks + [Join(words[i..Min(i + size, |words|)], " ")])
  {
    var g := words[i..Min(i + size, |words|)];
    var rest := Groups(words[Min(i + size, |words|)..], size);
    GroupsStep(words, i, size);
    JoinEachCons(g, rest);
    ListAssoc(chunks, [Join(g, " ")], JoinEach(rest));
  }

  lemma {:induction false} ChunkDone(words: seq<string>, size: nat, i: nat, chunks: seq<string>)
    requires size > 0 && i >= |words|
    requires ChunkedUpTo(words, size, i, chunks)
    ensures chunks == JoinEach(Groups(words, size))
  {
    assert words[Min(i, |words|)..] == [];
    assert chunks + [] == chunks;
  }

  lemma {:induction false} ListAssoc<T>(a: seq<T>, b: seq<T>, c: seq<T>)
    ensures (a + b) + c == a + (b + c)
  {
  }

  /** One turn of the loop takes the group starting at `i`. */
  lemma {:induction false} GroupsStep(ws: seq<string>, i: nat, size: nat)
    requires size > 0 && i < |ws|
    ensures Groups(ws[i..], size) ==
      [ws[i..Min(i + size, |ws|)]] + Groups(ws[Min(i + size, |ws|)..], size)
  {
    var rest := ws[i..];
    if |rest| <= size {
      assert ws[Min(i + size, |ws|)..] == [];
      assert rest == ws[i..Min(i + size, |ws|)];
    } else {
      assert rest[..size] == ws[i..i + size];
      assert rest[size..] == ws[i + size..];
    }
  }

  lemma {:induction false} JoinEachCons(g: seq<string>, rest: seq<seq<string>>)
    ensures JoinEach([g] + rest) == [Join(g, " ")] + JoinEach(rest)
  {
    var l, r := JoinEach([g] + rest), [Join(g, " ")] + JoinEach(rest);
    forall k | 0 <= k < |l| ensures l[k] == r[k] {
      if k > 0 {
        assert ([g] + rest)[k] == rest[k - 1];
      }
    }
  }

  /** The groups hold the words in order, each exactly once. */
  lemma {:induction false} GroupsConcat(ws: seq<string>, size: nat)
    requires size > 0
    ensures Concat(Groups(ws, size)) == ws
    decreases |ws|
  {
    if ws == [] {
    } else if |ws| <= size {
      assert Groups(ws, size) == [ws];
      assert Concat([ws]) == ws + Concat([]);
      assert ws + [] == ws;
    } else {
      var gs := Groups(ws, size);
      GroupsConcat(ws[size..], size);
      assert gs[1..] == Groups(ws[size..], size);
      assert ws[..size] + ws[size..] == ws;
    }
  }

  /** Every group holds between 1 and `size` words, and every group but the
      last holds exactly `size`. */
  lemma {:induction false} GroupSizes(ws: seq<string>, size: nat)
    requires size > 0
    ensures forall k :: 0 <= k < |Groups(ws, size)| ==> 1 <= |Groups(ws, size)[k]| <= size
    ensures forall k :: 0 <= k < |Groups(ws, size)| - 1 ==> |Groups(ws, size)[k]| == size
    decreases |ws|
  {
    if |ws| > size {
      var gs := Groups(ws, size);
      GroupSizes(ws[size..], size);
      assert forall k :: 1 <= k < |gs| ==> gs[k] == Groups(ws[size..], size)[k - 1];
    }
  }

  lemma {:induction false} MulPositive(s: int, k: int)
    requires s > 0 && k >= 1
    ensures s * k >= s
    decreases k
  {
    if k > 1 {
      MulPositive(s, k - 1);
      assert s * k == s * (k - 1) + s;
    }
  }

  lemma {:induction false} MulSmall(s: int, k: int)
    requires s > 0 && -s < s * k < s
    ensures k == 0
  {
    if k >= 1 {
      MulPositive(s, k);
    } else if k <= -1 {
      MulPositive(s, -k);
    }
  }

  lemma {:induction false} CeilStep(n: int, size: int)
    requires size > 0 && n > size
    ensures (n + size - 1) / size == 1 + (n - size + size - 1) / size
  {
    var x := n - 1;
    var a := x + size;
    assert a == size * (a / size) + a % size;
    assert x == size * (x / size) + x % size;
    assert size * (a / size - x / size - 1) == x % size - a % size;
    MulSmall(size, a / size - x / size - 1);
  }

  lemma {:induction false} CeilZero(size: int)
    requires size > 0
    ensures (size - 1) / size == 0
  {
  }

  lemma {:induction false} CeilOne(n: int, size: int)
    requires 0 < n <= size
    ensures (n + size - 1) / size == 1
  {
    assert size <= n + size - 1 < 2 * size;
  }

  /** There are as many groups as `ceil(len(words) / size)`. */
  lemma {:induction false} GroupCount(ws: seq<string>, size: nat)
    requires size > 0
    ensures |Groups(ws, size)| == (|ws| + size - 1) / size
    decreases |ws|
  {
    if ws == [] {
      CeilZero(size);
    } else if |ws| <= size {
      CeilOne(|ws|, size);
    } else {
      var rest := ws[size..];
      assert |Groups(ws, size)| == 1 + |Groups(rest, size)|;
      GroupCount(rest, size);
      CeilStep(|ws|, size);
    }
  }

  /** Every group of words is a chunk whose words are that group. */
  lemma {:induction false} GroupWordsOfChunk(gs: seq<seq<string>>)
    requires forall k, m :: 0 <= k < |gs| && 0 <= m < |gs[k]| ==> IsWord(gs[k][m])
    ensures ChunkWords(JoinEach(gs)) == Concat(gs)
    decreases |gs|
  {
    if gs != [] {
      var cs := JoinEach(gs);
      assert gs == [gs[0]] + gs[1..];
      JoinEachCons(gs[0], gs[1..]);
      WordsOfJoin(gs[0]);
      GroupWordsOfChunk(gs[1..]);
      assert cs[1..] == JoinEach(gs[1..]);
    }
  }

  /** Every group is made of words of the text. */
  lemma {:induction false} GroupsOfWords(ws: seq<string>, size: nat)
    requires size > 0
    requires forall m :: 0 <= m < |ws| ==> IsWord(ws[m])
    ensures forall k, m :: 0 <= k < |Groups(ws, size)| && 0 <= m < |Groups(ws, size)[k]| ==> IsWord(Groups(ws, size)[k][m])
    decreases |ws|
  {
    if |ws| > size {
      var gs := Groups(ws, size);
      GroupsOfWords(ws[size..], size);
      assert forall k :: 1 <= k < |gs| ==> gs[k] == Groups(ws[size..], size)[k - 1];
    }
  }

  /** Splitting every chunk back into words and concatenating gives the
      words of the text, in order. */
  lemma {:induction false} ChunksRoundTrip(text: string, size: nat)
    requires size > 0
    ensures ChunkWords(JoinEach(Groups(Words(text), size))) == Words(text)
  {
    var ws := Words(text);
    GroupsOfWords(ws, size);
    GroupWordsOfChunk(Groups(ws, size));
    GroupsConcat(ws, size);
  }

  /** The chunks of a text: as many as `ceil(words / size)`, none when the
      text is whitespace only, and each one the single-space join of between
      1 and `size` consecutive words; all but the last hold exactly `size`. */
  lemma {:induction false} ChunkShape(text: string, size: nat)
    requires size > 0
    ensures |JoinEach(Groups(Words(text), size))| == (|Words(text)| + size - 1) / size
    ensures JoinEach(Groups(Words(text), size)) == [] <==> AllSpace(text, IsPySpace)
    ensures forall k :: 0 <= k < |JoinEach(Groups(Words(text), size))| ==>
      1 <= |Words(JoinEach(Groups(Words(text), size))[k])| <= size
    ensures forall k :: 0 <= k < |JoinEach(Groups(Words(text), size))| - 1 ==>
      |Words(JoinEach(Groups(Words(text), size))[k])| == size
  {
    var ws := Words(text);
    var gs := Groups(ws, size);
    GroupCount(ws, size);
    GroupSizes(ws, size);
    GroupsOfWords(ws, size);
    WordsEmpty(text);
    forall k | 0 <= k < |gs| ensures Words(JoinEach(gs)[k]) == gs[k] {
      WordsOfJoin(gs[k]);
    }
    if ws != [] {
      assert (|ws| + size - 1) / size >= 1 by {
        assert |ws| + size - 1 >= size;
      }
    }
  }

  /** A text has no words exactly when it is whitespace only. */
  lemma {:induction false} WordsEmpty(text: string)
    ensures Words(text) == [] <==> AllSpace(text, IsPySpace)
    decreases |text|
  {
    if text != [] {
      WordsEmpty(text[1..]);
      if IsPySpace(text[0]) {
        assert AllSpace(text, IsPySpace) <==> AllSpace(text[1..], IsPySpace) by {
          forall k | 0 < k < |text| ensures text[k] == text[1..][k - 1] {}
        }
      }
    }
  }

  /** A chunk carries no line feed: its words have none and they are joined
      with spaces. */
  lemma {:induction false} ChunkHasNoLineFeed(gs: seq<seq<string>>, k: nat)
    requires k < |gs|
    requires forall m :: 0 <= m < |gs[k]| ==> IsWord(gs[k][m])
    ensures '\n' !in JoinEach(gs)[k]
  {
    if '\n' in Join(gs[k], " ") {
      JoinChars(gs[k], " ", '\n');
      var m :| 0 <= m < |gs[k]| && '\n' in gs[k][m];
      var p :| 0 <= p < |gs[k][m]| && gs[k][m][p] == '\n';
      WordHasNoSpace(gs[k][m], p);
    }
  }

  /** `"\n".join(chunks[:5])`: the context a question is answered from. */
  function QuestionContext(chunks: seq<string>): string {
    JoinLines(chunks[..Min(ContextChunks, |chunks|)])
  }

  /** The context is the first (at most) five chunks, in order, one per
      line: splitting it on line feeds gives exactly those chunks back. */
  lemma {:induction false} ContextLines(text: string, size: nat)
    requires size > 0 && !AllSpace(text, IsPySpace)
    ensures Lines(QuestionContext(JoinEach(Groups(Words(text), size)))) ==
      JoinEach(Groups(Words(text), size))[..Min(ContextChunks, |JoinEach(Groups(Words(text), size))|)]
  {
    var ws := Words(text);
    var gs := Groups(ws, size);
    var cs := JoinEach(gs);
    ChunkShape(text, size);
    GroupsOfWords(ws, size);
    var first := cs[..Min(ContextChunks, |cs|)];
    forall k | 0 <= k < |first| ensures '\n' !in first[k] {
      ChunkHasNoLineFeed(gs, k);
    }
    LinesOfJoin(first);
  }
}
