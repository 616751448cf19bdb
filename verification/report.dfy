/** The report stage of the offline similarity pipeline: every unordered pair
    of files whose similarity is strictly above the threshold is flagged, in
    row-major order of the similarity matrix, the flagged rows carry the two
    base names, and the table is ordered by decreasing similarity. The
    matrix itself (embeddings and cosine similarity) is an input. */
module Report {
  import opened Preprocess

  /** The pipeline's threshold. */
  const Threshold: real := 0.95

  /** One flagged pair: matrix positions and the score. */
  datatype Pair = Pair(first: nat, second: nat, score: real)

  /** One row of the report table. */
  datatype Row = Row(file1: string, file2: string, similarity: real)

  /** What the pipeline reports: nothing flagged, or the table. */
  datatype Outcome = NoSimilarPairs | Table(rows: seq<Row>)

  /** An `n` by `n` matrix. */
  predicate IsSquare(m: seq<seq<real>>, n: nat) {
    |m| == n && forall i :: 0 <= i < n ==> |m[i]| == n
  }

  /** The flagged pairs `(i, k)` of row `i` of the matrix, with
      `i < k < j`, in order. */
  function RowPairs(row: seq<real>, i: nat, j: nat, t: real): seq<Pair>
    requires j <= |row|
    decreases j
  {
    if j <= i + 1 then []
    else RowPairs(row, i, j - 1, t) + (if row[j - 1] > t then [Pair(i, j - 1, row[j - 1])] else [])
  }

  /** The flagged pairs of rows `0 .. i - 1`, row after row, each row
      scanned right of the diagonal. */
  function PairsUpTo(m: seq<seq<real>>, i: nat, t: real): seq<Pair>
    requires i <= |m|
  {
    if i == 0 then [] else PairsUpTo(m, i - 1, t) + RowPairs(m[i - 1], i - 1, |m[i - 1]|, t)
  }

  /** All flagged pairs of the matrix. */
  function AllPairs(m: seq<seq<real>>, t: real): seq<Pair> {
    PairsUpTo(m, |m|, t)
  }

  /** A pair lies right of the diagonal and its score is strictly above the
      threshold. */
  predicate Flagged(m: seq<seq<real>>, t: real, p: Pair) {
    p.first < |m| && p.first < p.second < |m[p.first]| && p.score == m[p.first][p.second] && p.score > t
  }

  /** The pipeline's double loop over `i` and `j > i`. */
  method FlagPairs(m: seq<seq<real>>, t: real) returns (r: seq<Pair>)
    ensures r == AllPairs(m, t)
  {
    r := [];
    var i := 0;
    while i < |m|
      invariant 0 <= i <= |m|
      invariant r == PairsUpTo(m, i, t)
    {
      var j := i + 1;
      var row := [];
      while j < |m[i]|
        invariant i + 1 <= j
        invariant row == RowPairs(m[i], i, if j <= |m[i]| then j else |m[i]|, t)
      {
        var score := m[i][j];
        if score > t {
          row := row + [Pair(i, j, score)];
        }
        j := j + 1;
      }
      r := r + row;
      i := i + 1;
    }
  }

  /** A pair is flagged in a row iff it lies in that row, right of the
      diagonal and left of `j`, and its score is strictly above the
      threshold. */
  lemma {:induction false} RowPairsExact(row: seq<real>, i: nat, j: nat, t: real, p: Pair)
    requires j <= |row|
    ensures p in RowPairs(row, i, j, t) <==> p.first == i && i < p.second < j && p.score == row[p.second] && p.score > t
    decreases j
  {
    if j > i + 1 {
      RowPairsExact(row, i, j - 1, t, p);
    }
  }

  lemma {:induction false} InAppend(p: Pair, a: seq<Pair>, b: seq<Pair>)
    ensures p in a + b <==> p in a || p in b
  {
  }

  /** A pair is flagged in the first `i` rows iff it lies in one of them
      and is flagged. */
  lemma {:induction false} PairsUpToExact(m: seq<seq<real>>, i: nat, t: real, p: Pair)
    requires i <= |m|
    ensures p in PairsUpTo(m, i, t) <==> p.first < i && Flagged(m, t, p)
  {
    if i > 0 {
      var a := PairsUpTo(m, i - 1, t);
      var b := RowPairs(m[i - 1], i - 1, |m[i - 1]|, t);
      assert PairsUpTo(m, i, t) == a + b;
      InAppend(p, a, b);
      PairsUpToExact(m, i - 1, t, p);
      RowPairsExact(m[i - 1], i - 1, |m[i - 1]|, t, p);
    }
  }

  /** The flagged pairs of the whole matrix: exactly the pairs `i < j` whose
      score is strictly above the threshold. */
  lemma {:induction false} FlaggedExactly(m: seq<seq<real>>, t: real, p: Pair)
    ensures p in AllPairs(m, t) <==> Flagged(m, t, p)
  {
    PairsUpToExact(m, |m|, t, p);
  }

  /** Row `i` yields pairs of row `i`, right of the diagonal, left of `j`. */
  lemma {:induction false} RowPairsRange(row: seq<real>, i: nat, j: nat, t: real)
    requires j <= |row|
    ensures forall x :: 0 <= x < |RowPairs(row, i, j, t)| ==>
      RowPairs(row, i, j, t)[x].first == i && i < RowPairs(row, i, j, t)[x].second < j
    decreases j
  {
    if j > i + 1 {
      RowPairsRange(row, i, j - 1, t);
    }
  }

  /** The first `i` rows yield pairs of those rows. */
  lemma {:induction false} PairsRange(m: seq<seq<real>>, i: nat, t: real)
    requires i <= |m|
    ensures forall x :: 0 <= x < |PairsUpTo(m, i, t)| ==> PairsUpTo(m, i, t)[x].first < i
  {
    if i > 0 {
      PairsRange(m, i - 1, t);
      RowPairsRange(m[i - 1], i - 1, |m[i - 1]|, t);
    }
  }

  /** Every pair names two files of the list. */
  predicate InRange(r: seq<Pair>, n: nat) {
    forall x :: 0 <= x < |r| ==> r[x].first < n && r[x].second < n
  }

  /** On a square matrix every flagged pair names two files of the list. */
  lemma {:induction false} AllPairsInRange(m: seq<seq<real>>, n: nat, t: real)
    requires IsSquare(m, n)
    ensures InRange(AllPairs(m, t), n)
  {
    var r := AllPairs(m, t);
    forall x | 0 <= x < |r| ensures r[x].first < n && r[x].second < n {
      FlaggedExactly(m, t, r[x]);
    }
  }

  /** Position `(a, b)` comes strictly before `(c, d)` in row-major order. */
  predicate Before(a: Pair, b: Pair) {
    a.first < b.first || (a.first == b.first && a.second < b.second)
  }

  /** Strictly increasing in row-major order, hence without duplicates. */
  predicate RowMajor(r: seq<Pair>) {
    forall x, y :: 0 <= x < y < |r| ==> Before(r[x], r[y])
  }

  lemma {:induction false} RowPairsInRow(row: seq<real>, i: nat, j: nat, t: real)
    requires j <= |row|
    ensures RowMajor(RowPairs(row, i, j, t))
    decreases j
  {
    if j > i + 1 {
      RowPairsInRow(row, i, j - 1, t);
      RowPairsRange(row, i, j - 1, t);
    }
  }

  lemma {:induction false} RowMajorAppend(a: seq<Pair>, b: seq<Pair>)
    requires RowMajor(a) && RowMajor(b)
    requires forall x, y :: 0 <= x < |a| && 0 <= y < |b| ==> Before(a[x], b[y])
    ensures RowMajor(a + b)
  {
    var c := a + b;
    forall x, y | 0 <= x < y < |c| ensures Before(c[x], c[y]) {
      if y < |a| {
        assert c[x] == a[x] && c[y] == a[y];
      } else if x < |a| {
        assert c[x] == a[x] && c[y] == b[y - |a|];
      } else {
        assert c[x] == b[x - |a|] && c[y] == b[y - |a|];
      }
    }
  }

  /** Pairs are flagged in row-major order, each once. */
  lemma {:induction false} PairsInOrder(m: seq<seq<real>>, i: nat, t: real)
    requires i <= |m|
    ensures RowMajor(PairsUpTo(m, i, t))
  {
    if i > 0 {
      var a := PairsUpTo(m, i - 1, t);
      var b := RowPairs(m[i - 1], i - 1, |m[i - 1]|, t);
      PairsInOrder(m, i - 1, t);
      PairsRange(m, i - 1, t);
      RowPairsInRow(m[i - 1], i - 1, |m[i - 1]|, t);
      RowPairsRange(m[i - 1], i - 1, |m[i - 1]|, t);
      RowMajorAppend(a, b);
    }
  }

  /** Raising the threshold only removes pairs. */
  lemma {:induction false} ThresholdMonotone(m: seq<seq<real>>, t1: real, t2: real, p: Pair)
    requires t1 <= t2
    ensures p in AllPairs(m, t2) ==> p in AllPairs(m, t1)
  {
    FlaggedExactly(m, t1, p);
    FlaggedExactly(m, t2, p);
  }

  /** The table rows of the flagged pairs: base names and score. */
  function Rows(files: seq<string>, pairs: seq<Pair>): (r: seq<Row>)
    requires InRange(pairs, |files|)
    ensures |r| == |pairs|
    ensures forall x :: 0 <= x < |r| ==> r[x] == Row(Basename(files[pairs[x].first]), Basename(files[pairs[x].second]), pairs[x].score)
  {
    if pairs == [] then [] else [Row(Basename(files[pairs[0].first]), Basename(files[pairs[0].second]), pairs[0].score)] + Rows(files, pairs[1..])
  }

  /** The unsorted table: one row per flagged pair, in flagging order. */
  function FlaggedRows(files: seq<string>, m: seq<seq<real>>): seq<Row>
    requires IsSquare(m, |files|)
  {
    AllPairsInRange(m, |files|, Threshold);
    Rows(files, AllPairs(m, Threshold))
  }

  /** `rows` is `src` reordered by decreasing similarity: all that
      `sort_values(ascending=False)` promises. */
  predicate SortedFrom(rows: seq<Row>, src: seq<Row>) {
    multiset(rows) == multiset(src) && Descending(rows)
  }

  /** Ordered by decreasing similarity. */
  predicate Descending(r: seq<Row>) {
    forall x, y :: 0 <= x < y < |r| ==> r[x].similarity >= r[y].similarity
  }

  /** Places `row` before the first row it is not smaller than. */
  function Insert(row: Row, r: seq<Row>): seq<Row> {
    if r == [] then [row]
    else if row.similarity >= r[0].similarity then [row] + r
    else [r[0]] + Insert(row, r[1..])
  }

  /** The table ordered by decreasing similarity. The order among equal
      scores is not fixed by the pipeline; this definition picks one. */
  function SortBySimilarity(r: seq<Row>): seq<Row> {
    if r == [] then [] else Insert(r[0], SortBySimilarity(r[1..]))
  }

  lemma {:induction false} InsertKeeps(row: Row, r: seq<Row>)
    ensures multiset(Insert(row, r)) == multiset(r) + multiset{row}
    ensures forall x :: 0 <= x < |Insert(row, r)| ==> Insert(row, r)[x] == row || Insert(row, r)[x] in r
  {
    if r != [] && row.similarity < r[0].similarity {
      InsertKeeps(row, r[1..]);
      assert r == [r[0]] + r[1..];
    }
  }

  lemma {:induction false} InsertDescending(row: Row, r: seq<Row>)
    requires Descending(r)
    ensures Descending(Insert(row, r))
  {
    if r != [] && row.similarity < r[0].similarity {
      var rest := r[1..];
      assert Descending(rest) by {
        forall x, y | 0 <= x < y < |rest| ensures rest[x].similarity >= rest[y].similarity {
          assert rest[x] == r[x + 1] && rest[y] == r[y + 1];
        }
      }
      InsertDescending(row, rest);
      InsertKeeps(row, rest);
      var ins := Insert(row, rest);
      forall y | 0 <= y < |ins| ensures r[0].similarity >= ins[y].similarity {
        if ins[y] != row {
          var z :| 0 <= z < |rest| && rest[z] == ins[y];
          assert rest[z] == r[z + 1];
        }
      }
      var res := [r[0]] + ins;
      forall x, y | 0 <= x < y < |res| ensures res[x].similarity >= res[y].similarity {
        assert res[y] == ins[y - 1];
        if x > 0 {
          assert res[x] == ins[x - 1];
        }
      }
    }
  }

  /** Sorting keeps every row exactly as often as it occurs and orders the
      rows by decreasing similarity. */
  lemma {:induction false} SortSpec(r: seq<Row>)
    ensures multiset(SortBySimilarity(r)) == multiset(r)
    ensures Descending(SortBySimilarity(r))
  {
    if r != [] {
      SortSpec(r[1..]);
      InsertKeeps(r[0], SortBySimilarity(r[1..]));
      InsertDescending(r[0], SortBySimilarity(r[1..]));
      assert r == [r[0]] + r[1..];
    }
  }

  /** The whole report of the pipeline for the collected files and their
      similarity matrix. */
  method BuildReport(files: seq<string>, m: seq<seq<real>>) returns (out: Outcome)
    requires IsSquare(m, |files|)
    ensures out.NoSimilarPairs? <==> AllPairs(m, Threshold) == []
    ensures out.Table? ==> SortedFrom(out.rows, FlaggedRows(files, m))
    ensures out.Table? ==> out.rows == SortBySimilarity(FlaggedRows(files, m))
  {
    var pairs := FlagPairs(m, Threshold);
    AllPairsInRange(m, |files|, Threshold);
    if pairs == [] {
      out := NoSimilarPairs;
    } else {
      SortSpec(Rows(files, pairs));
      out := Table(SortBySimilarity(Rows(files, pairs)));
    }
  }

  /** Sorting neither adds nor drops a row. */
  lemma {:induction false} SortedSameRows(r: seq<Row>, row: Row)
    ensures row in SortBySimilarity(r) <==> row in r
  {
    SortSpec(r);
    assert row in SortBySimilarity(r) <==> row in multiset(SortBySimilarity(r));
  }

  /** Every pair above the threshold has its row. */
  lemma {:induction false} RowOfFlagged(files: seq<string>, m: seq<seq<real>>, i: nat, j: nat)
    requires IsSquare(m, |files|) && i < j < |files| && m[i][j] > Threshold
    ensures Row(Basename(files[i]), Basename(files[j]), m[i][j]) in FlaggedRows(files, m)
  {
    var pairs := AllPairs(m, Threshold);
    AllPairsInRange(m, |files|, Threshold);
    FlaggedExactly(m, Threshold, Pair(i, j, m[i][j]));
    var x :| 0 <= x < |pairs| && pairs[x] == Pair(i, j, m[i][j]);
    assert Rows(files, pairs)[x] == Row(Basename(files[i]), Basename(files[j]), m[i][j]);
  }

  /** Every row comes from a pair above the threshold. */
  lemma {:induction false} FlaggedRowOrigin(files: seq<string>, m: seq<seq<real>>, row: Row)
    requires IsSquare(m, |files|) && row in FlaggedRows(files, m)
    ensures exists i, j :: 0 <= i < j < |files| && m[i][j] > Threshold && row == Row(Basename(files[i]), Basename(files[j]), m[i][j])
  {
    var pairs := AllPairs(m, Threshold);
    AllPairsInRange(m, |files|, Threshold);
    var rows := Rows(files, pairs);
    var x :| 0 <= x < |rows| && rows[x] == row;
    FlaggedExactly(m, Threshold, pairs[x]);
    var i, j := pairs[x].first, pairs[x].second;
    assert 0 <= i < j < |files| && m[i][j] > Threshold && row == Row(Basename(files[i]), Basename(files[j]), m[i][j]);
  }

  /** Every row of the table names two distinct collected files whose score
      is above the threshold, and every such pair has its row. */
  lemma {:induction false} TableExactly(files: seq<string>, m: seq<seq<real>>, row: Row)
    requires IsSquare(m, |files|)
    ensures row in SortBySimilarity(FlaggedRows(files, m)) <==>
            exists i, j :: 0 <= i < j < |files| && m[i][j] > Threshold && row == Row(Basename(files[i]), Basename(files[j]), m[i][j])
  {
    SortedSameRows(FlaggedRows(files, m), row);
    if row in FlaggedRows(files, m) {
      FlaggedRowOrigin(files, m, row);
    }
    if exists i, j :: 0 <= i < j < |files| && m[i][j] > Threshold && row == Row(Basename(files[i]), Basename(files[j]), m[i][j]) {
      var i, j :| 0 <= i < j < |files| && m[i][j] > Threshold && row == Row(Basename(files[i]), Basename(files[j]), m[i][j]);
      RowOfFlagged(files, m, i, j);
    }
  }
}
