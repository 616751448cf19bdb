/** The book finder's search for a downloadable PDF: the title and author
    are cleaned, then four sources are asked in a fixed order (Project
    Gutenberg, the Internet Archive, Open Library, Google Books) and the
    first one that yields a non-empty URL wins. What the network says is an
    input: the links of the Gutenberg search page fetched for a query, and
    for the other three sources the URL each one settles on for the query
    it is given. Every source catches its own errors and answers None for
    them. */
module BookFinder {
  import opened Text

  const GutenbergSite := "https://www.gutenberg.org"
  const GutenbergSearch := "https://www.gutenberg.org/ebooks/search/?query="
  const ArchiveSearch := "https://archive.org/search.php?query="

  predicate IsQuote(c: char) {
    c == '\'' || c == '"'
  }

  predicate NotQuote(c: char) {
    !IsQuote(c)
  }

  /** `not term or term.lower() == 'unknown'`. */
  predicate IsUnknown(term: Option<string>) {
    term.None? || term.value == "" || Lower(term.value) == "unknown"
  }

  /** `_clean_search_term(term)`: "" for a missing, empty or unknown term;
      otherwise the stripped term without any quote character. */
  function CleanSearchTerm(term: Option<string>): (r: string)
    ensures IsUnknown(term) ==> r == ""
    ensures forall k :: 0 <= k < |r| ==> !IsQuote(r[k])
    ensures !IsUnknown(term) ==> r == FilterChars(Strip(term.value), NotQuote)
    ensures !IsUnknown(term) ==>
      forall c :: c in r <==> c in Strip(term.value) && !IsQuote(c)
  {
    if IsUnknown(term) then ""
    else FilterChars(Strip(term.value), NotQuote)
  }

  /** Every spelling of "unknown", whatever the case of its letters, is
      recognised. */
  lemma {:induction false} UnknownInAnyCase(t: string)
    requires |t| == 7 && forall k :: 0 <= k < 7 ==> LowerChar(t[k]) == "unknown"[k]
    ensures CleanSearchTerm(Some(t)) == ""
  {
    LowerIsUnknown(t);
  }

  lemma {:induction false} LowerIsUnknown(t: string)
    requires |t| == 7 && forall k :: 0 <= k < 7 ==> LowerChar(t[k]) == "unknown"[k]
    ensures Lower(t) == "unknown"
  {
  }

  /** A known term without quotes is only stripped. */
  lemma {:induction false} QuoteFreeTermIsStripped(t: string)
    requires !IsUnknown(Some(t))
    requires forall k :: 0 <= k < |t| ==> !IsQuote(t[k])
    ensures CleanSearchTerm(Some(t)) == Strip(t)
  {
    var s := Strip(t);
    StripInside(t);
    FilterKeepsAll(s, NotQuote);
  }

  /** A quote inside the stripped term is deleted and the text on either
      side of it is cleaned and joined, so "ab'ba" becomes "abba". */
  lemma {:induction false} QuoteDeleted(t: string, a: string, q: char, b: string)
    requires !IsUnknown(Some(t)) && Strip(t) == a + [q] + b && IsQuote(q)
    ensures CleanSearchTerm(Some(t)) == FilterChars(a, NotQuote) + FilterChars(b, NotQuote)
  {
    FilterAppend(a + [q], b, NotQuote);
    FilterAppend(a, [q], NotQuote);
    FilterOne(q, NotQuote);
    AppendEmpty(FilterChars(a, NotQuote));
  }

  lemma {:induction false} StripInside(t: string)
    ensures forall k :: 0 <= k < |Strip(t)| ==> Strip(t)[k] in t
  {
    TrimmedInside(t, Strip(t), IsPySpace);
  }

  /** `f"{title} {author}".strip()`: the query of every source before its
      own encoding. */
  function Query(title: string, author: string): string {
    Strip(title + " " + author)
  }

  /** Gutenberg's query: spaces turned into `+`, one character for one. */
  function GutenbergQuery(title: string, author: string): (r: string)
    ensures ' ' !in r
    ensures |r| == |Query(title, author)|
  {
    PlusEncoded(Query(title, author));
    ReplaceChar(Query(title, author), ' ', "+")
  }

  /** The Internet Archive's query: spaces turned into `%20`, so the query
      grows by two characters for every blank in it. */
  function ArchiveQuery(title: string, author: string): (r: string)
    ensures ' ' !in r
    ensures |r| == |Query(title, author)| + 2 * CountChar(Query(title, author), ' ')
  {
    PercentEncoded(Query(title, author));
    ReplaceChar(Query(title, author), ' ', "%20")
  }

  /** `+` takes the place of a blank, one character for one. */
  lemma {:induction false} PlusEncoded(q: string)
    ensures ' ' !in ReplaceChar(q, ' ', "+")
    ensures |ReplaceChar(q, ' ', "+")| == |q|
  {
    BlanksEncoded(q, "+");
  }

  /** `%20` adds two characters per blank. */
  lemma {:induction false} PercentEncoded(q: string)
    ensures ' ' !in ReplaceChar(q, ' ', "%20")
    ensures |ReplaceChar(q, ' ', "%20")| == |q| + 2 * CountChar(q, ' ')
  {
    BlanksEncoded(q, "%20");
  }

  /** Encoding the blanks of a query with a text free of blanks leaves no
      blank, and each blank adds the encoding's length minus one. */
  lemma {:induction false} BlanksEncoded(q: string, sub: string)
    requires ' ' !in sub
    ensures ' ' !in ReplaceChar(q, ' ', sub)
    ensures |ReplaceChar(q, ' ', sub)| == |q| + (|sub| - 1) * CountChar(q, ' ')
  {
    ReplaceCharLength(q, ' ', sub);
  }

  /** Replacing a character by one that does not occur, then back, gives
      the text back. */
  lemma {:induction false} ReplaceCharInverse(s: string, c: char, d: char)
    requires d !in s
    ensures ReplaceChar(ReplaceChar(s, c, [d]), d, [c]) == s
    decreases |s|
  {
    if s != [] {
      var y := if s[0] == c then d else s[0];
      var t := ReplaceChar(s[1..], c, [d]);
      assert ReplaceChar(s, c, [d]) == [y] + t;
      assert ([y] + t)[0] == y && ([y] + t)[1..] == t;
      ReplaceCharInverse(s[1..], c, d);
      assert s == [s[0]] + s[1..];
    }
  }

  /** When the query holds no `+`, Gutenberg's query decodes back to it. */
  lemma {:induction false} GutenbergQueryDecodes(title: string, author: string)
    requires '+' !in Query(title, author)
    ensures ReplaceChar(GutenbergQuery(title, author), '+', " ") == Query(title, author)
  {
    ReplaceCharInverse(Query(title, author), ' ', '+');
  }

  /** The link of a Gutenberg result page that is taken: it names a PDF
      among the site's files. */
  predicate IsPdfFile(href: string) {
    Contains(href, ".pdf") && Contains(href, "files")
  }

  /** A site-relative link made absolute. */
  function Absolute(href: string): string {
    if "/" <= href then GutenbergSite + href else href
  }

  /** The first link naming a PDF file, made absolute. */
  function PickHref(hrefs: seq<string>): (r: Option<string>)
  {
    if hrefs == [] then None
    else if IsPdfFile(hrefs[0]) then Some(Absolute(hrefs[0]))
    else PickHref(hrefs[1..])
  }

  /** Link `i` is the first one naming a PDF file. */
  predicate IsFirstPdf(hrefs: seq<string>, i: int) {
    0 <= i < |hrefs| && IsPdfFile(hrefs[i]) && forall j :: 0 <= j < i ==> !IsPdfFile(hrefs[j])
  }

  /** The link picked is the first one naming a PDF file, made absolute,
      and there is none exactly when no link names a PDF file. */
  lemma {:induction false} PickHrefSpec(hrefs: seq<string>)
    ensures PickHref(hrefs).None? <==> forall i :: 0 <= i < |hrefs| ==> !IsPdfFile(hrefs[i])
    ensures PickHref(hrefs).Some? ==>
      exists i :: IsFirstPdf(hrefs, i) && PickHref(hrefs).value == Absolute(hrefs[i])
    decreases |hrefs|
  {
    if hrefs != [] && !IsPdfFile(hrefs[0]) {
      var t := hrefs[1..];
      PickHrefSpec(t);
      assert forall i :: 1 <= i < |hrefs| ==> hrefs[i] == t[i - 1];
      if PickHref(t).Some? {
        var i :| IsFirstPdf(t, i) && PickHref(t).value == Absolute(t[i]);
        assert hrefs[i + 1] == t[i];
        assert IsFirstPdf(hrefs, i + 1);
      }
    } else if hrefs != [] {
      assert IsFirstPdf(hrefs, 0);
    }
  }

  /** Making a link absolute keeps it a link to a PDF file. */
  lemma {:induction false} AbsoluteKeepsPdf(href: string)
    requires IsPdfFile(href)
    ensures IsPdfFile(Absolute(href))
    ensures "/" <= href ==> Absolute(href) == GutenbergSite + href
    ensures !("/" <= href) ==> Absolute(href) == href
  {
    if "/" <= href {
      var i :| 0 <= i && OccursAt(href, ".pdf", i);
      var j :| 0 <= j && OccursAt(href, "files", j);
      OccursAtShift(GutenbergSite, href, ".pdf", i);
      OccursAtShift(GutenbergSite, href, "files", j);
    }
  }

  /** `_search_gutenberg`: no request for an empty title; otherwise the
      search page for the `+` query is fetched (`gutenberg` gives its links,
      or None when it is not a 200 answer or the request fails) and its
      first PDF link is taken. */
  function SearchGutenberg(title: string, author: string, gutenberg: string -> Option<seq<string>>): Option<string> {
    if title == "" then None
    else
      var page := gutenberg(GutenbergQuery(title, author));
      if page.None? then None else PickHref(page.value)
  }

  /** Only the page fetched for the `+` query matters: two sites that serve
      the same page for that query give the same answer. */
  lemma {:induction false} GutenbergAsksItsQuery(title: string, author: string,
                                                 g1: string -> Option<seq<string>>, g2: string -> Option<seq<string>>)
    requires g1(GutenbergQuery(title, author)) == g2(GutenbergQuery(title, author))
    ensures SearchGutenberg(title, author, g1) == SearchGutenberg(title, author, g2)
  {
  }

  /** What Gutenberg gives is a link to a PDF file. */
  lemma {:induction false} GutenbergGivesPdf(title: string, author: string, gutenberg: string -> Option<seq<string>>)
    ensures SearchGutenberg(title, author, gutenberg).Some? ==> IsPdfFile(SearchGutenberg(title, author, gutenberg).value)
  {
    var page := gutenberg(GutenbergQuery(title, author));
    if title != "" && page.Some? {
      PickedIsPdf(page.value);
    }
  }

  /** The link picked from a page names a PDF file. */
  lemma {:induction false} PickedIsPdf(hrefs: seq<string>)
    ensures PickHref(hrefs).Some? ==> IsPdfFile(PickHref(hrefs).value)
  {
    if PickHref(hrefs).Some? {
      PickHrefSpec(hrefs);
      var i :| IsFirstPdf(hrefs, i) && PickHref(hrefs).value == Absolute(hrefs[i]);
      AbsoluteKeepsPdf(hrefs[i]);
    }
  }

  /** One of the three lookup sources: no request for an empty title,
      otherwise whatever the source settles on for its query. */
  function SearchBy(title: string, query: string, lookup: string -> Option<string>): Option<string> {
    if title == "" then None else lookup(query)
  }

  /** Python's truthiness of a source's answer. */
  predicate IsHit(answer: Option<string>) {
    answer.Some? && answer.value != ""
  }

  /** The loop of `search_pdf_online`: the first truthy answer. */
  function FirstHit(answers: seq<Option<string>>): (r: Option<string>)
  {
    if answers == [] then None
    else if IsHit(answers[0]) then answers[0]
    else FirstHit(answers[1..])
  }

  /** Answer `i` is the first truthy one. */
  predicate IsFirstHit(answers: seq<Option<string>>, i: int) {
    0 <= i < |answers| && IsHit(answers[i]) && forall j :: 0 <= j < i ==> !IsHit(answers[j])
  }

  /** The answer returned is the first truthy one, and there is none
      exactly when no answer is truthy. */
  lemma {:induction false} FirstHitSpec(answers: seq<Option<string>>)
    ensures FirstHit(answers).None? <==> forall i :: 0 <= i < |answers| ==> !IsHit(answers[i])
    ensures FirstHit(answers).Some? ==> exists i :: IsFirstHit(answers, i) && FirstHit(answers) == answers[i]
    decreases |answers|
  {
    if answers != [] && !IsHit(answers[0]) {
      var t := answers[1..];
      FirstHitSpec(t);
      assert forall i :: 1 <= i < |answers| ==> answers[i] == t[i - 1];
      if FirstHit(t).Some? {
        var i :| IsFirstHit(t, i) && FirstHit(t) == t[i];
        assert answers[i + 1] == t[i];
        assert IsFirstHit(answers, i + 1);
      }
    } else if answers != [] {
      assert IsFirstHit(answers, 0);
    }
  }

  /** The answers of the four sources, in the order they are asked. */
  function SourceAnswers(title: string, author: string, gutenberg: string -> Option<seq<string>>,
                         archive: string -> Option<string>, openLibrary: string -> Option<string>,
                         google: string -> Option<string>): (r: seq<Option<string>>)
    ensures |r| == 4
    ensures title == "" ==> r == [None, None, None, None]
  {
    [ SearchGutenberg(title, author, gutenberg),
      SearchBy(title, ArchiveQuery(title, author), archive),
      SearchBy(title, Query(title, author), openLibrary),
      SearchBy(title, Query(title, author), google) ]
  }

  /** `search_pdf_online(title, author)`. */
  function SearchPdfOnline(title: Option<string>, author: Option<string>, gutenberg: string -> Option<seq<string>>,
                           archive: string -> Option<string>, openLibrary: string -> Option<string>,
                           google: string -> Option<string>): Option<string>
  {
    var t, a := CleanSearchTerm(title), CleanSearchTerm(author);
    FirstHit(SourceAnswers(t, a, gutenberg, archive, openLibrary, google))
  }

  /** Without a usable title no source is asked and nothing is found,
      whatever the network would have said. */
  lemma {:induction false} UnknownTitleFindsNothing(title: Option<string>, author: Option<string>, gutenberg: string -> Option<seq<string>>,
                                                    archive: string -> Option<string>, openLibrary: string -> Option<string>,
                                                    google: string -> Option<string>)
    requires CleanSearchTerm(title) == ""
    ensures SearchPdfOnline(title, author, gutenberg, archive, openLibrary, google) == None
  {
    FirstHitLast(None, None, None, None);
  }

  /** A PDF found on Gutenberg is the result, whatever the later sources
      would have said; Gutenberg's result is always a link to a PDF file. */
  lemma {:induction false} GutenbergComesFirst(title: Option<string>, author: Option<string>, gutenberg: string -> Option<seq<string>>,
                                               archive: string -> Option<string>, openLibrary: string -> Option<string>,
                                               google: string -> Option<string>)
    requires SearchGutenberg(CleanSearchTerm(title), CleanSearchTerm(author), gutenberg).Some?
    ensures SearchPdfOnline(title, author, gutenberg, archive, openLibrary, google) == SearchGutenberg(CleanSearchTerm(title), CleanSearchTerm(author), gutenberg)
    ensures IsPdfFile(SearchPdfOnline(title, author, gutenberg, archive, openLibrary, google).value)
  {
    var t := CleanSearchTerm(title);
    var a := CleanSearchTerm(author);
    var g := SearchGutenberg(t, a, gutenberg);
    GutenbergGivesPdf(t, a, gutenberg);
    assert g.value != "" by {
      var i :| OccursAt(g.value, ".pdf", i);
    }
  }

  /** When every source before it comes back empty-handed, Google's answer
      decides. */
  lemma {:induction false} GoogleIsTheLastResort(title: Option<string>, author: Option<string>, gutenberg: string -> Option<seq<string>>,
                                                 archive: string -> Option<string>, openLibrary: string -> Option<string>,
                                                 google: string -> Option<string>)
    requires CleanSearchTerm(title) != ""
    requires SearchGutenberg(CleanSearchTerm(title), CleanSearchTerm(author), gutenberg).None?
    requires archive(ArchiveQuery(CleanSearchTerm(title), CleanSearchTerm(author))).None?
    requires openLibrary(Query(CleanSearchTerm(title), CleanSearchTerm(author))).None?
    ensures SearchPdfOnline(title, author, gutenberg, archive, openLibrary, google) ==
      (if IsHit(google(Query(CleanSearchTerm(title), CleanSearchTerm(author))))
       then google(Query(CleanSearchTerm(title), CleanSearchTerm(author))) else None)
  {
    var t, a := CleanSearchTerm(title), CleanSearchTerm(author);
    var answers := SourceAnswers(t, a, gutenberg, archive, openLibrary, google);
    FirstHitLast(answers[0], answers[1], answers[2], answers[3]);
    assert answers == [answers[0], answers[1], answers[2], answers[3]];
    assert SearchPdfOnline(title, author, gutenberg, archive, openLibrary, google) == FirstHit(answers);
  }

  /** When Gutenberg finds no PDF, a truthy answer from the Internet
      Archive, asked with its `%20` query, is the result, whatever Open
      Library and Google would have said. */
  lemma {:induction false} ArchiveComesSecond(title: Option<string>, author: Option<string>, gutenberg: string -> Option<seq<string>>,
                                              archive: string -> Option<string>, openLibrary: string -> Option<string>,
                                              google: string -> Option<string>)
    requires CleanSearchTerm(title) != ""
    requires SearchGutenberg(CleanSearchTerm(title), CleanSearchTerm(author), gutenberg).None?
    requires IsHit(archive(ArchiveQuery(CleanSearchTerm(title), CleanSearchTerm(author))))
    ensures SearchPdfOnline(title, author, gutenberg, archive, openLibrary, google) ==
      archive(ArchiveQuery(CleanSearchTerm(title), CleanSearchTerm(author)))
  {
    var t, a := CleanSearchTerm(title), CleanSearchTerm(author);
    var answers := SourceAnswers(t, a, gutenberg, archive, openLibrary, google);
    FirstHitSecond(answers[0], answers[1], answers[2], answers[3]);
    assert answers == [answers[0], answers[1], answers[2], answers[3]];
    assert SearchPdfOnline(title, author, gutenberg, archive, openLibrary, google) == FirstHit(answers);
  }

  /** When neither Gutenberg nor the Internet Archive has an answer, a
      truthy answer from Open Library, asked with the plain query, is the
      result, whatever Google would have said. */
  lemma {:induction false} OpenLibraryComesThird(title: Option<string>, author: Option<string>, gutenberg: string -> Option<seq<string>>,
                                                 archive: string -> Option<string>, openLibrary: string -> Option<string>,
                                                 google: string -> Option<string>)
    requires CleanSearchTerm(title) != ""
    requires SearchGutenberg(CleanSearchTerm(title), CleanSearchTerm(author), gutenberg).None?
    requires !IsHit(archive(ArchiveQuery(CleanSearchTerm(title), CleanSearchTerm(author))))
    requires IsHit(openLibrary(Query(CleanSearchTerm(title), CleanSearchTerm(author))))
    ensures SearchPdfOnline(title, author, gutenberg, archive, openLibrary, google) ==
      openLibrary(Query(CleanSearchTerm(title), CleanSearchTerm(author)))
  {
    var t, a := CleanSearchTerm(title), CleanSearchTerm(author);
    var answers := SourceAnswers(t, a, gutenberg, archive, openLibrary, google);
    FirstHitThird(answers[0], answers[1], answers[2], answers[3]);
    assert answers == [answers[0], answers[1], answers[2], answers[3]];
    assert SearchPdfOnline(title, author, gutenberg, archive, openLibrary, google) == FirstHit(answers);
  }

  lemma {:induction false} FirstHitSecond(a: Option<string>, b: Option<string>, c: Option<string>, d: Option<string>)
    requires !IsHit(a) && IsHit(b)
    ensures FirstHit([a, b, c, d]) == b
  {
    assert [a, b, c, d][1..] == [b, c, d];
  }

  lemma {:induction false} FirstHitThird(a: Option<string>, b: Option<string>, c: Option<string>, d: Option<string>)
    requires !IsHit(a) && !IsHit(b) && IsHit(c)
    ensures FirstHit([a, b, c, d]) == c
  {
    assert [a, b, c, d][1..] == [b, c, d];
    assert [b, c, d][1..] == [c, d];
    assert FirstHit([a, b, c, d]) == FirstHit([b, c, d]) == FirstHit([c, d]);
  }

  lemma {:induction false} FirstHitLast(a: Option<string>, b: Option<string>, c: Option<string>, d: Option<string>)
    requires !IsHit(a) && !IsHit(b) && !IsHit(c)
    ensures FirstHit([a, b, c, d]) == if IsHit(d) then d else None
  {
    assert [a, b, c, d][1..] == [b, c, d];
    assert [b, c, d][1..] == [c, d];
    assert [c, d][1..] == [d];
    assert FirstHit([a, b, c, d]) == FirstHit([b, c, d]) == FirstHit([c, d]) == FirstHit([d]);
    if !IsHit(d) {
      assert [d][1..] == [];
      assert FirstHit([d]) == FirstHit([]) == None;
    }
  }
}
