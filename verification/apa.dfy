/**
 The citation style of the American Psychological Association, 7th edition,
 as far as this program implements it: a fixed template per record kind, the
 doi elided when absent, and the author list rebuilt from its comma-separated
 form.
 */
module Apa {
  import opened Strings
  import opened Markers
  import opened Options
  import opened Records
  import opened Templates

  /** Above this many comma-separated pieces the author list is truncated. */
  const MaxAuthors := 20

  /** How many leading pieces the truncation keeps (`del authors[18:]`). */
  const LeadingAuthors := 18

  /** `get_doi`: the doi when it is a non-empty string, otherwise nothing. */
  function DoiText(doi: Option<string>): (r: string)
    ensures r == "" <==> doi.None? || doi.value == ""
    ensures r != "" ==> r == doi.value
  {
    if doi.Some? && doi.value != "" then doi.value else ""
  }

  /** Python's `del s[n:]`: at most the first `n` elements remain. */
  function KeepFirst<T>(s: seq<T>, n: nat): (r: seq<T>)
    ensures |r| == if |s| <= n then |s| else n
    ensures r == s[..|r|]
  {
    if |s| <= n then s else s[..n]
  }

  /** `get_authors` exactly as written: a single author unchanged, two to twenty
      with every comma turned into `, & `, and a longer list collapsed to its last
      piece written twice around `, ... `. */
  function FormatAuthorsAsWritten(input: string): (r: string)
    ensures ',' !in input ==> r == input
    ensures var authors := Split(input, ',');
            1 < |authors| <= MaxAuthors ==> r == ReplaceChar(input, ',', ", & ")
    ensures var authors := Split(input, ',');
            var last := authors[|authors| - 1];
            |authors| > MaxAuthors ==> r == last + ", " + ("... " + last)
  {
    var authors := Split(input, ',');
    if |authors| == 1 then input
    else if |authors| > MaxAuthors then
      var last := authors[|authors| - 1];
      assert authors[|authors| - 1..] == [last];
      assert Terminated([last], ", ") == last + ", ";
      TruncateAsWritten(authors)
    else
      ReplaceSplit(input, ',', ", & ");
      Join(authors, ", & ")
  }

  /** The long-list branch as written: `del authors[:-1]` removes every piece but the
      last, so `del authors[18:]` has nothing left to cut. */
  function TruncateAsWritten(authors: seq<string>): string
    requires |authors| > 0
  {
    var tempAuthor := authors[|authors| - 1];
    var kept := KeepFirst(authors[|authors| - 1..], LeadingAuthors);
    Terminated(kept, ", ") + ("... " + tempAuthor)
  }

  /** `get_authors` with the first deletion removing only the last piece, as the
      comment above the branch describes: a longer list keeps its first eighteen
      pieces, then `... ` and the last piece, all joined by `, `. */
  function FormatAuthors(input: string): (r: string)
    ensures ',' !in input ==> r == input
    ensures var authors := Split(input, ',');
            1 < |authors| <= MaxAuthors ==> r == ReplaceChar(input, ',', ", & ")
    ensures var authors := Split(input, ',');
            |authors| > MaxAuthors ==> r == Join(authors[..LeadingAuthors] + ["... " + authors[|authors| - 1]], ", ")
  {
    var authors := Split(input, ',');
    if |authors| == 1 then input
    else if |authors| > MaxAuthors then
      TruncateJoin(authors);
      Truncate(authors)
    else
      ReplaceSplit(input, ',', ", & ");
      Join(authors, ", & ")
  }

  /** The long-list branch corrected: the first eighteen pieces, each followed by
      `, `, then `... ` and the last piece. */
  function Truncate(authors: seq<string>): string
    requires |authors| > 0
  {
    var tempAuthor := authors[|authors| - 1];
    var kept := KeepFirst(authors[..|authors| - 1], LeadingAuthors);
    Terminated(kept, ", ") + ("... " + tempAuthor)
  }

  /** A single author (no comma at all, including the empty string) is returned unchanged. */
  lemma AuthorsSingle(input: string)
    requires ',' !in input
    ensures FormatAuthors(input) == input
    ensures FormatAuthorsAsWritten(input) == input
  {
    SplitNoSeparator(input, ',');
  }

  /** Two to twenty authors: every comma becomes `, & `; pieces keep their own
      leading spaces. So the text grows by three characters per comma and gains
      one `&` per comma, i.e. n - 1 separators for n authors. */
  lemma AuthorsJoined(input: string)
    requires 1 <= CountChar(input, ',') < MaxAuthors
    ensures FormatAuthorsAsWritten(input) == ReplaceChar(input, ',', ", & ")
    ensures |FormatAuthorsAsWritten(input)| == |input| + 3 * CountChar(input, ',')
    ensures CountChar(FormatAuthorsAsWritten(input), '&') == CountChar(input, '&') + CountChar(input, ',')
  {
    ReplaceSplit(input, ',', ", & ");
    assert CountChar(", & ", '&') == 1 by {
      assert ", & "[1..] == " & ";
      assert " & "[1..] == "& ";
    }
    ReplaceCharCount(input, ',', ", & ", '&');
  }

  /** Every piece prefixed by `t`. */
  function PrefixEach(t: string, parts: seq<string>): (r: seq<string>)
    ensures |r| == |parts|
    ensures forall i :: 0 <= i < |parts| ==> r[i] == t + parts[i]
  {
    if |parts| == 0 then [] else [t + parts[0]] + PrefixEach(t, parts[1..])
  }

  /** `sep.join` with a separator `[c] + t` is the `[c]`-join of the pieces after the
      first, each prefixed by `t`. */
  lemma {:induction false} JoinLongSeparator(parts: seq<string>, c: char, t: string)
    requires |parts| > 0
    ensures Join(parts, [c] + t) == Join([parts[0]] + PrefixEach(t, parts[1..]), [c])
    decreases |parts|
  {
    if |parts| > 1 {
      JoinLongSeparator(parts[1..], c, t);
      var rest := PrefixEach(t, parts[2..]);
      assert parts[1..][1..] == parts[2..];
      assert PrefixEach(t, parts[1..]) == [t + parts[1]] + rest;
      var whole := [parts[0]] + PrefixEach(t, parts[1..]);
      assert whole[1..] == [t + parts[1]] + rest;
      JoinPrependFirst(t, [parts[1]] + rest, [c]);
      assert ([parts[1]] + rest)[1..] == rest;
    }
  }

  /** Comma-free pieces joined by `, ` split on commas into the first piece and the
      others each after the separator's space. */
  lemma ResplitCommaJoin(parts: seq<string>)
    requires |parts| > 0
    requires forall i :: 0 <= i < |parts| ==> ',' !in parts[i]
    ensures Split(Join(parts, ", "), ',') == [parts[0]] + PrefixEach(" ", parts[1..])
  {
    var pieces := [parts[0]] + PrefixEach(" ", parts[1..]);
    JoinLongSeparator(parts, ',', " ");
    assert [','] + " " == ", ";
    assert Join(parts, ", ") == Join(pieces, [',']);
    PrefixedCommaFree(parts);
    SplitJoin(pieces, ',');
  }

  lemma PrefixedCommaFree(parts: seq<string>)
    requires |parts| > 0
    requires forall i :: 0 <= i < |parts| ==> ',' !in parts[i]
    ensures forall i :: 0 <= i < |parts| ==> ',' !in ([parts[0]] + PrefixEach(" ", parts[1..]))[i]
  {
    var pieces := [parts[0]] + PrefixEach(" ", parts[1..]);
    forall i | 0 <= i < |pieces|
      ensures ',' !in pieces[i]
    {
      if i > 0 {
        assert pieces[i] == " " + parts[i];
        assert ',' !in " ";
      }
    }
  }

  /** More than twenty authors: the result is the first eighteen pieces and then
      `... ` with the last piece, joined by `, `; splitting it on commas again gives
      back those eighteen authors (all but the first after the separator's space)
      and the last one. */
  lemma AuthorsTruncated(input: string, authors: seq<string>)
    requires CountChar(input, ',') >= MaxAuthors
    requires authors == Split(input, ',')
    ensures FormatAuthors(input) == Join(authors[..LeadingAuthors] + ["... " + authors[|authors| - 1]], ", ")
    ensures Split(FormatAuthors(input), ',')
            == [authors[0]] + PrefixEach(" ", authors[1..LeadingAuthors] + ["... " + authors[|authors| - 1]])
  {
    assert FormatAuthors(input) == Truncate(authors);
    TruncateResplit(authors);
  }

  /** The long-list branch is a `, `-join of the first eighteen pieces and the
      ellipsis with the last one. */
  lemma TruncateJoin(authors: seq<string>)
    requires |authors| > MaxAuthors
    ensures Truncate(authors) == Join(authors[..LeadingAuthors] + ["... " + authors[|authors| - 1]], ", ")
  {
    var init := authors[..|authors| - 1];
    var kept := authors[..LeadingAuthors];
    assert KeepFirst(init, LeadingAuthors) == init[..LeadingAuthors];
    assert init[..LeadingAuthors] == kept;
    TerminatedThenJoin(kept, ", ", "... " + authors[|authors| - 1]);
  }

  /** Re-splitting the long-list branch gives back the first eighteen pieces and the
      last one. */
  lemma TruncateResplit(authors: seq<string>)
    requires |authors| > MaxAuthors
    requires forall i :: 0 <= i < |authors| ==> ',' !in authors[i]
    ensures var last := "... " + authors[|authors| - 1];
            && Truncate(authors) == Join(authors[..LeadingAuthors] + [last], ", ")
            && Split(Truncate(authors), ',') == [authors[0]] + PrefixEach(" ", authors[1..LeadingAuthors] + [last])
  {
    var last := "... " + authors[|authors| - 1];
    TruncateJoin(authors);
    var pieces := authors[..LeadingAuthors] + [last];
    assert pieces[1..] == authors[1..LeadingAuthors] + [last];
    forall i | 0 <= i < |pieces|
      ensures ',' !in pieces[i]
    {
      if i < LeadingAuthors {
        assert pieces[i] == authors[i];
      }
    }
    ResplitCommaJoin(pieces);
  }

  /** As written, more than twenty authors collapse to the last one, twice:
      `L, ... L`. */
  lemma AuthorsAsWrittenTruncated(input: string)
    requires CountChar(input, ',') >= MaxAuthors
    ensures var authors := Split(input, ',');
            var last := authors[|authors| - 1];
            FormatAuthorsAsWritten(input) == last + ", " + ("... " + last)
  {
    var authors := Split(input, ',');
    var last := authors[|authors| - 1];
    assert authors[|authors| - 1..] == [last];
    assert Terminated([last], ", ") == last + ", ";
  }

  /** The two versions differ only above twenty authors. */
  lemma AuthorsAgreeUpToTwenty(input: string)
    requires CountChar(input, ',') < MaxAuthors
    ensures FormatAuthors(input) == FormatAuthorsAsWritten(input)
  {
  }

  /** Any author string that splits into the twenty-one one-letter authors `a` to `u`
      (`TwentyOneAuthorsSplit` gives one): as written, the result is `u, ... u` and
      the first author is lost, while the corrected version begins with `a`. */
  lemma AuthorsAsWrittenDropsLeading(input: string)
    requires Split(input, ',') == TwentyOneAuthors()
    ensures FormatAuthorsAsWritten(input) == "u, ... u"
    ensures Split(FormatAuthors(input), ',')[0] == "a"
  {
    AuthorsAsWrittenTruncated(input);
    assert "u" + ", " + ("... " + "u") == "u, ... u";
    AuthorsTruncated(input, Split(input, ','));
  }

  lemma TwentyOneAuthorsSplit()
    ensures Split(Join(TwentyOneAuthors(), ","), ',') == TwentyOneAuthors()
  {
    var authors := TwentyOneAuthors();
    forall i | 0 <= i < |authors|
      ensures ',' !in authors[i]
    {
      assert |authors[i]| == 1 && authors[i][0] != ',';
    }
    SplitJoin(authors, ',');
  }

  function TwentyOneAuthors(): seq<string>
  {
    ["a", "b", "c", "d", "e", "f", "g", "h", "i", "j", "k",
     "l", "m", "n", "o", "p", "q", "r", "s", "t", "u"]
  }

  /** No marker appears in the author list unless the raw author string holds one. */
  lemma AuthorsMarkerFree(input: string)
    requires MarkerFree(input)
    ensures MarkerFree(FormatAuthors(input))
  {
    var authors := Split(input, ',');
    SplitMarkerFree(input, ',');
    if |authors| == 1 {
      assert FormatAuthors(input) == input;
    } else if |authors| > MaxAuthors {
      assert FormatAuthors(input) == Truncate(authors);
      TruncateMarkerFree(authors);
    } else {
      assert FormatAuthors(input) == Join(authors, ", & ");
      SeparatorFacts();
      JoinMarkerFree(authors, ", & ");
    }
  }

  /** The same for `get_authors` as written: its long-list branch `L, ... L` repeats
      a marker-free piece around marker-free separators. */
  lemma AuthorsAsWrittenMarkerFree(input: string)
    requires MarkerFree(input)
    ensures MarkerFree(FormatAuthorsAsWritten(input))
  {
    var authors := Split(input, ',');
    if |authors| > MaxAuthors {
      var last := authors[|authors| - 1];
      AuthorsAsWrittenTruncated(input);
      SplitMarkerFree(input, ',');
      SeparatorFacts();
      OccurrencesAppend("... ", last);
      OccurrencesAppend(last, ", ");
      assert SafeEnd(last + ", ");
      OccurrencesAppend(last + ", ", "... " + last);
    } else {
      AuthorsAgreeUpToTwenty(input);
      AuthorsMarkerFree(input);
    }
  }

  lemma TruncateMarkerFree(authors: seq<string>)
    requires |authors| > MaxAuthors
    requires forall i :: 0 <= i < |authors| ==> MarkerFree(authors[i])
    ensures MarkerFree(Truncate(authors))
  {
    var last := "... " + authors[|authors| - 1];
    TruncateJoin(authors);
    var pieces := authors[..LeadingAuthors] + [last];
    SeparatorFacts();
    OccurrencesAppend("... ", authors[|authors| - 1]);
    forall i | 0 <= i < |pieces|
      ensures MarkerFree(pieces[i])
    {
      if i < LeadingAuthors {
        assert pieces[i] == authors[i];
      }
    }
    JoinMarkerFree(pieces, ", ");
  }

  /** The separators `get_authors` writes hold no marker and are guarded. */
  lemma SeparatorFacts()
    ensures MarkerFree(", & ") && Guarded(", & ")
    ensures MarkerFree(", ") && Guarded(", ")
    ensures MarkerFree("... ") && SafeEnd("... ")
  {
  }

  // ----- Book -----

  const BookTemplate: Template := [
    Slot(Authors), Text(" ("), Slot(Year), Text("). ITALIC"), Slot(Title), Text(".ITALIC "), Slot(PublishingHouse), Text(". "), Slot(Doi)]

  function BookValues(b: BookModel): Values
  {
    map[Authors := FormatAuthorsAsWritten(b.authors), Year := NatToString(b.year), Title := b.title, PublishingHouse := b.publishingHouse, Doi := DoiText(b.doi)]
  }

  /** The pieces of an APA book citation, in order: the edition, city and page count take no part. */
  function BookParts(b: BookModel): seq<string>
  {
    [FormatAuthorsAsWritten(b.authors), " (", NatToString(b.year), "). ITALIC", b.title, ".ITALIC ", b.publishingHouse, ". ", DoiText(b.doi)]
  }

  /** `APABook.formatted`: the template filled left to right. An absent doi still
      leaves the `. ` before it. */
  function FormatBook(b: BookModel): (r: string)
    ensures r == Concat(BookParts(b))
  {
    BookFilled(b);
    Substitute(BookTemplate, BookValues(b)).text
  }

  /** Every slot of the template has a value, and the pieces are the ones listed above. */
  lemma BookFilled(b: BookModel)
    ensures Covered(BookTemplate, BookValues(b))
    ensures Texts(BookTemplate, BookValues(b)) == BookParts(b)
  {
    var t, env := BookTemplate, BookValues(b);
    assert Covered(t, env);
  }

  /** With marker-free fields, the book citation carries exactly the two markers of
      its template, around the title. */
  lemma BookMarkers(b: BookModel)
    requires MarkerFree(b.authors)
    requires MarkerFree(b.title)
    requires MarkerFree(b.publishingHouse)
    requires b.doi.Some? ==> MarkerFree(b.doi.value)
    ensures Occurrences(FormatBook(b)) == 2
  {
    AuthorsAsWrittenMarkerFree(b.authors);
    NumberMarkerFree(b.year);
    DoiMarkerFree(b.doi);
    BookLiterals();
    BookPartsMarkers(BookParts(b), "). ", "", ".", " ");
    ConcatMarkers(BookParts(b));
  }

  /** The literal texts of the template, checked once. */
  lemma BookLiterals()
    ensures Neutral(" (") && Neutral(". ")
    ensures "). ITALIC" == "). " + Marker + "" && MarkerBetween("). ", "")
    ensures ".ITALIC " == "." + Marker + " " && MarkerBetween(".", " ")
  {
  }

  /** The marker count of any piece list shaped like the book template. */
  lemma BookPartsMarkers(parts: seq<string>, p3: string, q3: string, p5: string, q5: string)
    requires |parts| == 9
    requires MarkerFree(parts[0]) && MarkerFree(parts[2]) && MarkerFree(parts[4]) && MarkerFree(parts[6]) && MarkerFree(parts[8])
    requires Neutral(parts[1])
    requires parts[3] == p3 + Marker + q3 && MarkerBetween(p3, q3)
    requires parts[5] == p5 + Marker + q5 && MarkerBetween(p5, q5)
    requires Neutral(parts[7])
    ensures SafeJoints(parts) && MarkerSum(parts) == 2
  {
    NeutralText(parts[1]);
    MarkedText(p3, q3);
    MarkedText(p5, q5);
    NeutralText(parts[7]);
    // One piece per step, from the end, so that each step is a small query for the solver.
    assert MarkerSum(parts, 8) == 0;
    assert MarkerSum(parts, 7) == 0;
    assert MarkerSum(parts, 6) == 0;
    assert MarkerSum(parts, 5) == 1;
    assert MarkerSum(parts, 4) == 1;
    assert MarkerSum(parts, 3) == 2;
    assert MarkerSum(parts, 2) == 2;
    assert MarkerSum(parts, 1) == 2;
  }

  // ----- Article -----

  const ArticleTemplate: Template := [
    Slot(Authors), Text(" ("), Slot(Year), Text("). "), Slot(ArticleTitle), Text(". ITALIC"), Slot(JournalTitle), Text(",ITALIC "), Slot(JournalNumber), Text(", "), Slot(Pages), Text(". "), Slot(Doi)]

  function ArticleValues(a: ArticleModel): Values
  {
    map[Authors := FormatAuthorsAsWritten(a.authors), Year := NatToString(a.year), ArticleTitle := a.articleTitle, JournalTitle := OptionalText(a.journalTitle), JournalNumber := OptionalNumber(a.journalNumber), Pages := a.pages, Doi := DoiText(a.doi)]
  }

  /** The pieces of an APA journal-article citation, in order. An absent journal
      title or number is written as `None`, as `str(None)` gives. */
  function ArticleParts(a: ArticleModel): seq<string>
  {
    [FormatAuthorsAsWritten(a.authors), " (", NatToString(a.year), "). ", a.articleTitle, ". ITALIC", OptionalText(a.journalTitle), ",ITALIC ", OptionalNumber(a.journalNumber), ", ", a.pages, ". ", DoiText(a.doi)]
  }

  /** `APAArticle.formatted`: the template filled left to right. */
  function FormatArticle(a: ArticleModel): (r: string)
    ensures r == Concat(ArticleParts(a))
  {
    ArticleFilled(a);
    Substitute(ArticleTemplate, ArticleValues(a)).text
  }

  /** Every slot of the template has a value, and the pieces are the ones listed above. */
  lemma ArticleFilled(a: ArticleModel)
    ensures Covered(ArticleTemplate, ArticleValues(a))
    ensures Texts(ArticleTemplate, ArticleValues(a)) == ArticleParts(a)
  {
    var t, env := ArticleTemplate, ArticleValues(a);
    assert Covered(t, env);
  }

  /** With marker-free fields, the article citation carries exactly the two markers
      of its template, around the journal title. */
  lemma ArticleMarkers(a: ArticleModel)
    requires MarkerFree(a.authors)
    requires MarkerFree(a.articleTitle)
    requires a.journalTitle.Some? ==> MarkerFree(a.journalTitle.value)
    requires MarkerFree(a.pages)
    requires a.doi.Some? ==> MarkerFree(a.doi.value)
    ensures Occurrences(FormatArticle(a)) == 2
  {
    AuthorsAsWrittenMarkerFree(a.authors);
    NumberMarkerFree(a.year);
    OptionalTextMarkerFree(a.journalTitle);
    OptionalNumberMarkerFree(a.journalNumber);
    DoiMarkerFree(a.doi);
    ArticleLiterals();
    ArticlePartsMarkers(ArticleParts(a), ". ", "", ",", " ");
    ConcatMarkers(ArticleParts(a));
  }

  /** The literal texts of the template, checked once. */
  lemma ArticleLiterals()
    ensures Neutral(" (") && Neutral("). ") && Neutral(", ") && Neutral(". ")
    ensures ". ITALIC" == ". " + Marker + "" && MarkerBetween(". ", "")
    ensures ",ITALIC " == "," + Marker + " " && MarkerBetween(",", " ")
  {
  }

  /** The marker count of any piece list shaped like the article template. */
  lemma ArticlePartsMarkers(parts: seq<string>, p5: string, q5: string, p7: string, q7: string)
    requires |parts| == 13
    requires MarkerFree(parts[0]) && MarkerFree(parts[2]) && MarkerFree(parts[4]) && MarkerFree(parts[6]) && MarkerFree(parts[8]) && MarkerFree(parts[10]) && MarkerFree(parts[12])
    requires Neutral(parts[1])
    requires Neutral(parts[3])
    requires parts[5] == p5 + Marker + q5 && MarkerBetween(p5, q5)
    requires parts[7] == p7 + Marker + q7 && MarkerBetween(p7, q7)
    requires Neutral(parts[9])
    requires Neutral(parts[11])
    ensures SafeJoints(parts) && MarkerSum(parts) == 2
  {
    NeutralText(parts[1]);
    NeutralText(parts[3]);
    MarkedText(p5, q5);
    MarkedText(p7, q7);
    NeutralText(parts[9]);
    NeutralText(parts[11]);
    // One piece per step, from the end, so that each step is a small query for the solver.
    assert MarkerSum(parts, 12) == 0;
    assert MarkerSum(parts, 11) == 0;
    assert MarkerSum(parts, 10) == 0;
    assert MarkerSum(parts, 9) == 0;
    assert MarkerSum(parts, 8) == 0;
    assert MarkerSum(parts, 7) == 1;
    assert MarkerSum(parts, 6) == 1;
    assert MarkerSum(parts, 5) == 2;
    assert MarkerSum(parts, 4) == 2;
    assert MarkerSum(parts, 3) == 2;
    assert MarkerSum(parts, 2) == 2;
    assert MarkerSum(parts, 1) == 2;
  }

  // ----- Internet resource -----

  const InternetResourceTemplate: Template := [
    Slot(Website), Text(" ("), Slot(AccessDate), Text(") ITALIC"), Slot(Article), Text(" ITALIC "), Slot(Link)]

  function InternetResourceValues(w: InternetResourceModel): Values
  {
    map[Website := w.website, AccessDate := w.accessDate, Article := w.article, Link := w.link]
  }

  /** The pieces of an APA internet-resource citation, in order; there is no author field. */
  function InternetResourceParts(w: InternetResourceModel): seq<string>
  {
    [w.website, " (", w.accessDate, ") ITALIC", w.article, " ITALIC ", w.link]
  }

  /** `APAInternetResource.formatted`: the template filled left to right. */
  function FormatInternetResource(w: InternetResourceModel): (r: string)
    ensures r == Concat(InternetResourceParts(w))
  {
    InternetResourceFilled(w);
    Substitute(InternetResourceTemplate, InternetResourceValues(w)).text
  }

  /** Every slot of the template has a value, and the pieces are the ones listed above. */
  lemma InternetResourceFilled(w: InternetResourceModel)
    ensures Covered(InternetResourceTemplate, InternetResourceValues(w))
    ensures Texts(InternetResourceTemplate, InternetResourceValues(w)) == InternetResourceParts(w)
  {
    var t, env := InternetResourceTemplate, InternetResourceValues(w);
    assert Covered(t, env);
  }

  /** With marker-free fields, the internet-resource citation carries exactly the two
      markers of its template, around the article name. */
  lemma InternetResourceMarkers(w: InternetResourceModel)
    requires MarkerFree(w.website)
    requires MarkerFree(w.accessDate)
    requires MarkerFree(w.article)
    requires MarkerFree(w.link)
    ensures Occurrences(FormatInternetResource(w)) == 2
  {
    InternetResourceLiterals();
    InternetResourcePartsMarkers(InternetResourceParts(w), ") ", "", " ", " ");
    ConcatMarkers(InternetResourceParts(w));
  }

  /** The literal texts of the template, checked once. */
  lemma InternetResourceLiterals()
    ensures Neutral(" (")
    ensures ") ITALIC" == ") " + Marker + "" && MarkerBetween(") ", "")
    ensures " ITALIC " == " " + Marker + " " && MarkerBetween(" ", " ")
  {
  }

  /** The marker count of any piece list shaped like the internet resource template. */
  lemma InternetResourcePartsMarkers(parts: seq<string>, p3: string, q3: string, p5: string, q5: string)
    requires |parts| == 7
    requires MarkerFree(parts[0]) && MarkerFree(parts[2]) && MarkerFree(parts[4]) && MarkerFree(parts[6])
    requires Neutral(parts[1])
    requires parts[3] == p3 + Marker + q3 && MarkerBetween(p3, q3)
    requires parts[5] == p5 + Marker + q5 && MarkerBetween(p5, q5)
    ensures SafeJoints(parts) && MarkerSum(parts) == 2
  {
    NeutralText(parts[1]);
    MarkedText(p3, q3);
    MarkedText(p5, q5);
    // One piece per step, from the end, so that each step is a small query for the solver.
    assert MarkerSum(parts, 6) == 0;
    assert MarkerSum(parts, 5) == 1;
    assert MarkerSum(parts, 4) == 1;
    assert MarkerSum(parts, 3) == 2;
    assert MarkerSum(parts, 2) == 2;
    assert MarkerSum(parts, 1) == 2;
  }

  // ----- Article in a collection -----

  const CollectionArticleTemplate: Template := [
    Slot(Authors), Text(" ("), Slot(Year), Text(") "), Slot(ArticleTitle), Text(", ITALIC"), Slot(CollectionTitle), Text(" ITALIC "), Slot(City), Text(": "), Slot(PublishingHouse), Text(", "), Slot(Pages), Text(" p.")]

  function CollectionArticleValues(c: ArticlesCollectionModel): Values
  {
    map[Authors := c.authors, Year := NatToString(c.year), ArticleTitle := c.articleTitle, CollectionTitle := c.collectionTitle, City := c.city, PublishingHouse := c.publishingHouse, Pages := c.pages]
  }

  /** The pieces of an APA citation of an article in a collection, in order. The
      author string is used as given, without `get_authors`, and the page range verbatim. */
  function CollectionArticleParts(c: ArticlesCollectionModel): seq<string>
  {
    [c.authors, " (", NatToString(c.year), ") ", c.articleTitle, ", ITALIC", c.collectionTitle, " ITALIC ", c.city, ": ", c.publishingHouse, ", ", c.pages, " p."]
  }

  /** `APACollectionArticle.formatted`: the template filled left to right. */
  function FormatCollectionArticle(c: ArticlesCollectionModel): (r: string)
    ensures r == Concat(CollectionArticleParts(c))
  {
    CollectionArticleFilled(c);
    Substitute(CollectionArticleTemplate, CollectionArticleValues(c)).text
  }

  /** Every slot of the template has a value, and the pieces are the ones listed above. */
  lemma CollectionArticleFilled(c: ArticlesCollectionModel)
    ensures Covered(CollectionArticleTemplate, CollectionArticleValues(c))
    ensures Texts(CollectionArticleTemplate, CollectionArticleValues(c)) == CollectionArticleParts(c)
  {
    var t, env := CollectionArticleTemplate, CollectionArticleValues(c);
    assert Covered(t, env);
  }

  /** With marker-free fields, the collection citation carries exactly the two markers
      of its template, around the collection title. */
  lemma CollectionArticleMarkers(c: ArticlesCollectionModel)
    requires MarkerFree(c.authors)
    requires MarkerFree(c.articleTitle)
    requires MarkerFree(c.collectionTitle)
    requires MarkerFree(c.city)
    requires MarkerFree(c.publishingHouse)
    requires MarkerFree(c.pages)
    ensures Occurrences(FormatCollectionArticle(c)) == 2
  {
    NumberMarkerFree(c.year);
    CollectionArticleLiterals();
    CollectionArticlePartsMarkers(CollectionArticleParts(c), ", ", "", " ", " ");
    ConcatMarkers(CollectionArticleParts(c));
  }

  /** The literal texts of the template, checked once. */
  lemma CollectionArticleLiterals()
    ensures Neutral(" (") && Neutral(") ") && Neutral(": ") && Neutral(", ")
    ensures Neutral(" p.")
    ensures ", ITALIC" == ", " + Marker + "" && MarkerBetween(", ", "")
    ensures " ITALIC " == " " + Marker + " " && MarkerBetween(" ", " ")
  {
  }

  /** The marker count of any piece list shaped like the article in a collection template. */
  lemma CollectionArticlePartsMarkers(parts: seq<string>, p5: string, q5: string, p7: string, q7: string)
    requires |parts| == 14
    requires MarkerFree(parts[0]) && MarkerFree(parts[2]) && MarkerFree(parts[4]) && MarkerFree(parts[6]) && MarkerFree(parts[8]) && MarkerFree(parts[10]) && MarkerFree(parts[12])
    requires Neutral(parts[1])
    requires Neutral(parts[3])
    requires parts[5] == p5 + Marker + q5 && MarkerBetween(p5, q5)
    requires parts[7] == p7 + Marker + q7 && MarkerBetween(p7, q7)
    requires Neutral(parts[9])
    requires Neutral(parts[11])
    requires Neutral(parts[13])
    ensures SafeJoints(parts) && MarkerSum(parts) == 2
  {
    NeutralText(parts[1]);
    NeutralText(parts[3]);
    MarkedText(p5, q5);
    MarkedText(p7, q7);
    NeutralText(parts[9]);
    NeutralText(parts[11]);
    NeutralText(parts[13]);
    // One piece per step, from the end, so that each step is a small query for the solver.
    assert MarkerSum(parts, 13) == 0;
    assert MarkerSum(parts, 12) == 0;
    assert MarkerSum(parts, 11) == 0;
    assert MarkerSum(parts, 10) == 0;
    assert MarkerSum(parts, 9) == 0;
    assert MarkerSum(parts, 8) == 0;
    assert MarkerSum(parts, 7) == 1;
    assert MarkerSum(parts, 6) == 1;
    assert MarkerSum(parts, 5) == 2;
    assert MarkerSum(parts, 4) == 2;
    assert MarkerSum(parts, 3) == 2;
    assert MarkerSum(parts, 2) == 2;
    assert MarkerSum(parts, 1) == 2;
  }

  // ----- Dissertation -----

  const DissertationTemplate: Template := [
    Slot(Authors), Text(" ("), Slot(Year), Text(") "), Slot(DissertationTitle), Text(", дис. ["), Slot(Degree), Text(" "), Slot(ScienceBranch), Text(" "), Slot(SpecialtyCode), Text("] "), Slot(City), Text(", "), Slot(Pages), Text(" p.")]

  function DissertationValues(d: DissertationModel): Values
  {
    map[Authors := FormatAuthorsAsWritten(d.authors), Year := NatToString(d.year), DissertationTitle := d.dissertationTitle, Degree := d.degree, ScienceBranch := d.scienceBranch, SpecialtyCode := d.specialtyCode, City := d.city, Pages := NatToString(d.pages)]
  }

  /** The pieces of an APA dissertation citation, in order. */
  function DissertationParts(d: DissertationModel): seq<string>
  {
    [FormatAuthorsAsWritten(d.authors), " (", NatToString(d.year), ") ", d.dissertationTitle, ", дис. [", d.degree, " ", d.scienceBranch, " ", d.specialtyCode, "] ", d.city, ", ", NatToString(d.pages), " p."]
  }

  /** `APADissertation.formatted`: the template filled left to right. */
  function FormatDissertation(d: DissertationModel): (r: string)
    ensures r == Concat(DissertationParts(d))
  {
    DissertationFilled(d);
    Substitute(DissertationTemplate, DissertationValues(d)).text
  }

  /** Every slot of the template has a value, and the pieces are the ones listed above. */
  lemma DissertationFilled(d: DissertationModel)
    ensures Covered(DissertationTemplate, DissertationValues(d))
    ensures Texts(DissertationTemplate, DissertationValues(d)) == DissertationParts(d)
  {
    var t, env := DissertationTemplate, DissertationValues(d);
    assert Covered(t, env);
  }

  /** The dissertation template holds no marker, so with marker-free fields the
      citation holds none. */
  lemma DissertationMarkers(d: DissertationModel)
    requires MarkerFree(d.authors)
    requires MarkerFree(d.dissertationTitle)
    requires MarkerFree(d.degree)
    requires MarkerFree(d.scienceBranch)
    requires MarkerFree(d.specialtyCode)
    requires MarkerFree(d.city)
    ensures Occurrences(FormatDissertation(d)) == 0
  {
    AuthorsAsWrittenMarkerFree(d.authors);
    NumberMarkerFree(d.year);
    NumberMarkerFree(d.pages);
    DissertationLiterals();
    AlternatingSixteenMarkers(DissertationParts(d));
    ConcatMarkers(DissertationParts(d));
  }

  /** The literal texts of the template, checked once. */
  lemma DissertationLiterals()
    ensures Neutral(" (") && Neutral(") ") && Neutral(", дис. [") && Neutral(" ")
    ensures Neutral("] ") && Neutral(", ") && Neutral(" p.")
  {
  }

  // ----- Field texts -----

  /** The doi text holds no marker unless the doi does. */
  lemma DoiMarkerFree(doi: Option<string>)
    requires doi.Some? ==> MarkerFree(doi.value)
    ensures MarkerFree(DoiText(doi))
  {
    if DoiText(doi) == "" { NoInitialNoMarker(""); }
  }

  // ----- The doi and the unused fields -----

  /** The doi is the last piece of a book citation: the citation is the one without
      a doi followed by the doi text. */
  lemma BookDoiAppended(b: BookModel)
    ensures FormatBook(b) == FormatBook(b.(doi := None)) + DoiText(b.doi)
  {
    var head := BookParts(b)[..8];
    assert BookParts(b) == head + [DoiText(b.doi)];
    assert BookParts(b.(doi := None)) == head + [""];
    LastPiece(head, DoiText(b.doi));
  }

  /** Without a doi the book citation still ends in the `. ` that preceded it. */
  lemma BookWithoutDoi(b: BookModel)
    requires b.doi.None?
    ensures EndsWith(FormatBook(b), ". ")
  {
    var head := BookParts(b)[..7];
    assert BookParts(b) == head + [". "] + [""];
    ConcatLast(head + [". "], "");
    ConcatLast(head, ". ");
  }

  /** The same two facts for a journal article. */
  lemma ArticleDoiAppended(a: ArticleModel)
    ensures FormatArticle(a) == FormatArticle(a.(doi := None)) + DoiText(a.doi)
  {
    var head := ArticleParts(a)[..12];
    assert ArticleParts(a) == head + [DoiText(a.doi)];
    assert ArticleParts(a.(doi := None)) == head + [""];
    LastPiece(head, DoiText(a.doi));
  }

  lemma ArticleWithoutDoi(a: ArticleModel)
    requires a.doi.None?
    ensures EndsWith(FormatArticle(a), ". ")
  {
    var head := ArticleParts(a)[..11];
    assert ArticleParts(a) == head + [". "] + [""];
    ConcatLast(head + [". "], "");
    ConcatLast(head, ". ");
  }

  /** A last piece adds its text to what an empty last piece gives. */
  lemma LastPiece(head: seq<string>, last: string)
    ensures Concat(head + [last]) == Concat(head + [""]) + last
  {
    ConcatLast(head, last);
    ConcatLast(head, "");
  }

  /** A book's edition, city and page count never reach its APA citation. */
  lemma BookIgnoresUnusedFields(b: BookModel, edition: Option<string>, city: string, pages: Positive)
    ensures FormatBook(b.(edition := edition, city := city, pages := pages)) == FormatBook(b)
  {
    var other := b.(edition := edition, city := city, pages := pages);
    assert BookParts(other) == BookParts(b);
  }
}
