/**
 The citation style of GOST R 7.0.5-2008 as this program implements it: a fixed
 template per record kind, every field written as given (no author rewriting,
 no italics), and the edition statement spelled out only when there is one.
 */
module Gost {
  import opened Strings
  import opened Markers
  import opened Options
  import opened Records
  import opened Templates

  /** What `get_edition` appends after a non-empty edition. */
  const EditionSuffix: string := " изд. – "

  /** `GOSTBook.get_edition`: the edition followed by ` изд. – `, or nothing when the
      edition is absent or empty (both are false in Python). */
  function EditionText(edition: Option<string>): (r: string)
    ensures r == "" <==> edition.None? || edition.value == ""
    ensures r != "" ==> r == edition.value + EditionSuffix
  {
    if edition.Some? && edition.value != "" then edition.value + EditionSuffix else ""
  }

  /** The edition text holds no marker unless the edition does, and it never ends in
      the first letters of a marker, so it cannot form one with the city after it. */
  lemma EditionMarkerFree(edition: Option<string>)
    requires edition.Some? ==> MarkerFree(edition.value)
    ensures MarkerFree(EditionText(edition)) && SafeEnd(EditionText(edition))
  {
    if EditionText(edition) == "" {
      NoInitialNoMarker("");
    } else {
      NoInitialNoMarker(EditionSuffix);
      OccurrencesAppend(edition.value, EditionSuffix);
    }
  }

  // ----- Book -----

  const BookTemplate: Template := [
    Slot(Authors), Text(" "), Slot(Title), Text(". – "), Slot(Edition), Slot(City), Text(": "), Slot(PublishingHouse), Text(", "), Slot(Year), Text(". – "), Slot(Pages), Text(" с.")]

  function BookValues(b: BookModel): Values
  {
    map[Authors := b.authors, Title := b.title, Edition := EditionText(b.edition), City := b.city, PublishingHouse := b.publishingHouse, Year := NatToString(b.year), Pages := NatToString(b.pages)]
  }

  /** The pieces of a GOST book citation, in order. The edition text runs straight
      into the city; the doi takes no part. */
  function BookParts(b: BookModel): seq<string>
  {
    [b.authors, " ", b.title, ". – ", EditionText(b.edition), b.city, ": ", b.publishingHouse, ", ", NatToString(b.year), ". – ", NatToString(b.pages), " с."]
  }

  /** `GOSTBook.formatted`: the template filled left to right. */
  function FormatBook(b: BookModel): (r: string)
    ensures r == Concat(BookParts(b))
  {
    BookFilled(b);
    Substitute(BookTemplate, BookValues(b)).text
  }

  /** Every slot of the template has a value, and the pieces are the ones listed above. */
  lemma BookFilled(b: BookModel)
    ensures Covered(BookTemplate, BookValues(b))
    ensures Texts(BookTemplate, BookValues(b)) == BookParts(b)
  {
    var t, env := BookTemplate, BookValues(b);
    assert Covered(t, env);
  }

  /** GOST has no italics: with marker-free fields the book citation holds no marker. */
  lemma BookMarkers(b: BookModel)
    requires MarkerFree(b.authors)
    requires MarkerFree(b.title)
    requires b.edition.Some? ==> MarkerFree(b.edition.value)
    requires MarkerFree(b.city)
    requires MarkerFree(b.publishingHouse)
    ensures Occurrences(FormatBook(b)) == 0
  {
    EditionMarkerFree(b.edition);
    NumberMarkerFree(b.year);
    NumberMarkerFree(b.pages);
    BookLiterals();
    BookPartsMarkers(BookParts(b));
    ConcatMarkers(BookParts(b));
  }

  /** The literal texts of the template, checked once. */
  lemma BookLiterals()
    ensures Neutral(" ") && Neutral(". – ") && Neutral(": ") && Neutral(", ")
    ensures Neutral(" с.")
  {
  }

  /** The marker count of any piece list shaped like the book template. */
  lemma BookPartsMarkers(parts: seq<string>)
    requires |parts| == 13
    requires MarkerFree(parts[0]) && MarkerFree(parts[2]) && MarkerFree(parts[4]) && SafeEnd(parts[4]) && MarkerFree(parts[5]) && MarkerFree(parts[7]) && MarkerFree(parts[9]) && MarkerFree(parts[11])
    requires Neutral(parts[1])
    requires Neutral(parts[3])
    requires Neutral(parts[6])
    requires Neutral(parts[8])
    requires Neutral(parts[10])
    requires Neutral(parts[12])
    ensures SafeJoints(parts) && MarkerSum(parts) == 0
  {
    NeutralText(parts[1]);
    NeutralText(parts[3]);
    NeutralText(parts[6]);
    NeutralText(parts[8]);
    NeutralText(parts[10]);
    NeutralText(parts[12]);
    // One piece per step, from the end, so that each step is a small query for the solver.
    assert MarkerSum(parts, 12) == 0;
    assert MarkerSum(parts, 11) == 0;
    assert MarkerSum(parts, 10) == 0;
    assert MarkerSum(parts, 9) == 0;
    assert MarkerSum(parts, 8) == 0;
    assert MarkerSum(parts, 7) == 0;
    assert MarkerSum(parts, 6) == 0;
    assert MarkerSum(parts, 5) == 0;
    assert MarkerSum(parts, 4) == 0;
    assert MarkerSum(parts, 3) == 0;
    assert MarkerSum(parts, 2) == 0;
    assert MarkerSum(parts, 1) == 0;
  }

  // ----- Internet resource -----

  const InternetResourceTemplate: Template := [
    Slot(Article), Text(" // "), Slot(Website), Text(" URL: "), Slot(Link), Text(" (дата обращения: "), Slot(AccessDate), Text(").")]

  function InternetResourceValues(w: InternetResourceModel): Values
  {
    map[Article := w.article, Website := w.website, Link := w.link, AccessDate := w.accessDate]
  }

  /** The pieces of a GOST internet-resource citation, in order. */
  function InternetResourceParts(w: InternetResourceModel): seq<string>
  {
    [w.article, " // ", w.website, " URL: ", w.link, " (дата обращения: ", w.accessDate, ")."]
  }

  /** `GOSTInternetResource.formatted`: the template filled left to right. */
  function FormatInternetResource(w: InternetResourceModel): (r: string)
    ensures r == Concat(InternetResourceParts(w))
  {
    InternetResourceFilled(w);
    Substitute(InternetResourceTemplate, InternetResourceValues(w)).text
  }

  /** Every slot of the template has a value, and the pieces are the ones listed above. */
  lemma InternetResourceFilled(w: InternetResourceModel)
    ensures Covered(InternetResourceTemplate, InternetResourceValues(w))
    ensures Texts(InternetResourceTemplate, InternetResourceValues(w)) == InternetResourceParts(w)
  {
    var t, env := InternetResourceTemplate, InternetResourceValues(w);
    assert Covered(t, env);
  }

  /** With marker-free fields the internet-resource citation holds no marker. */
  lemma InternetResourceMarkers(w: InternetResourceModel)
    requires MarkerFree(w.article)
    requires MarkerFree(w.website)
    requires MarkerFree(w.link)
    requires MarkerFree(w.accessDate)
    ensures Occurrences(FormatInternetResource(w)) == 0
  {
    InternetResourceLiterals();
    InternetResourcePartsMarkers(InternetResourceParts(w));
    ConcatMarkers(InternetResourceParts(w));
  }

  /** The literal texts of the template, checked once. */
  lemma InternetResourceLiterals()
    ensures Neutral(" // ") && Neutral(" URL: ") && Neutral(" (дата обращения: ") && Neutral(").")
  {
  }

  /** The marker count of any piece list shaped like the internet resource template. */
  lemma InternetResourcePartsMarkers(parts: seq<string>)
    requires |parts| == 8
    requires MarkerFree(parts[0]) && MarkerFree(parts[2]) && MarkerFree(parts[4]) && MarkerFree(parts[6])
    requires Neutral(parts[1])
    requires Neutral(parts[3])
    requires Neutral(parts[5])
    requires Neutral(parts[7])
    ensures SafeJoints(parts) && MarkerSum(parts) == 0
  {
    NeutralText(parts[1]);
    NeutralText(parts[3]);
    NeutralText(parts[5]);
    NeutralText(parts[7]);
    // One piece per step, from the end, so that each step is a small query for the solver.
    assert MarkerSum(parts, 7) == 0;
    assert MarkerSum(parts, 6) == 0;
    assert MarkerSum(parts, 5) == 0;
    assert MarkerSum(parts, 4) == 0;
    assert MarkerSum(parts, 3) == 0;
    assert MarkerSum(parts, 2) == 0;
    assert MarkerSum(parts, 1) == 0;
  }

  // ----- Article in a collection -----

  const CollectionArticleTemplate: Template := [
    Slot(Authors), Text(" "), Slot(ArticleTitle), Text(" // "), Slot(CollectionTitle), Text(". – "), Slot(City), Text(": "), Slot(PublishingHouse), Text(", "), Slot(Year), Text(". – С. "), Slot(Pages), Text(".")]

  function CollectionArticleValues(c: ArticlesCollectionModel): Values
  {
    map[Authors := c.authors, ArticleTitle := c.articleTitle, CollectionTitle := c.collectionTitle, City := c.city, PublishingHouse := c.publishingHouse, Year := NatToString(c.year), Pages := c.pages]
  }

  /** The pieces of a GOST citation of an article in a collection, in order. */
  function CollectionArticleParts(c: ArticlesCollectionModel): seq<string>
  {
    [c.authors, " ", c.articleTitle, " // ", c.collectionTitle, ". – ", c.city, ": ", c.publishingHouse, ", ", NatToString(c.year), ". – С. ", c.pages, "."]
  }

  /** `GOSTCollectionArticle.formatted`: the template filled left to right. */
  function FormatCollectionArticle(c: ArticlesCollectionModel): (r: string)
    ensures r == Concat(CollectionArticleParts(c))
  {
    CollectionArticleFilled(c);
    Substitute(CollectionArticleTemplate, CollectionArticleValues(c)).text
  }

  /** Every slot of the template has a value, and the pieces are the ones listed above. */
  lemma CollectionArticleFilled(c: ArticlesCollectionModel)
    ensures Covered(CollectionArticleTemplate, CollectionArticleValues(c))
    ensures Texts(CollectionArticleTemplate, CollectionArticleValues(c)) == CollectionArticleParts(c)
  {
    var t, env := CollectionArticleTemplate, CollectionArticleValues(c);
    assert Covered(t, env);
  }

  /** With marker-free fields the collection citation holds no marker. */
  lemma CollectionArticleMarkers(c: ArticlesCollectionModel)
    requires MarkerFree(c.authors)
    requires MarkerFree(c.articleTitle)
    requires MarkerFree(c.collectionTitle)
    requires MarkerFree(c.city)
    requires MarkerFree(c.publishingHouse)
    requires MarkerFree(c.pages)
    ensures Occurrences(FormatCollectionArticle(c)) == 0
  {
    NumberMarkerFree(c.year);
    CollectionArticleLiterals();
    CollectionArticlePartsMarkers(CollectionArticleParts(c));
    ConcatMarkers(CollectionArticleParts(c));
  }

  /** The literal texts of the template, checked once. */
  lemma CollectionArticleLiterals()
    ensures Neutral(" ") && Neutral(" // ") && Neutral(". – ") && Neutral(": ")
    ensures Neutral(", ") && Neutral(". – С. ") && Neutral(".")
  {
  }

  /** The marker count of any piece list shaped like the article in a collection template. */
  lemma CollectionArticlePartsMarkers(parts: seq<string>)
    requires |parts| == 14
    requires MarkerFree(parts[0]) && MarkerFree(parts[2]) && MarkerFree(parts[4]) && MarkerFree(parts[6]) && MarkerFree(parts[8]) && MarkerFree(parts[10]) && MarkerFree(parts[12])
    requires Neutral(parts[1])
    requires Neutral(parts[3])
    requires Neutral(parts[5])
    requires Neutral(parts[7])
    requires Neutral(parts[9])
    requires Neutral(parts[11])
    requires Neutral(parts[13])
    ensures SafeJoints(parts) && MarkerSum(parts) == 0
  {
    NeutralText(parts[1]);
    NeutralText(parts[3]);
    NeutralText(parts[5]);
    NeutralText(parts[7]);
    NeutralText(parts[9]);
    NeutralText(parts[11]);
    NeutralText(parts[13]);
    // One piece per step, from the end, so that each step is a small query for the solver.
    assert MarkerSum(parts, 13) == 0;
    assert MarkerSum(parts, 12) == 0;
    assert MarkerSum(parts, 11) == 0;
    assert MarkerSum(parts, 10) == 0;
    assert MarkerSum(parts, 9) == 0;
    assert MarkerSum(parts, 8) == 0;
    assert MarkerSum(parts, 7) == 0;
    assert MarkerSum(parts, 6) == 0;
    assert MarkerSum(parts, 5) == 0;
    assert MarkerSum(parts, 4) == 0;
    assert MarkerSum(parts, 3) == 0;
    assert MarkerSum(parts, 2) == 0;
    assert MarkerSum(parts, 1) == 0;
  }

  // ----- Dissertation -----

  const DissertationTemplate: Template := [
    Slot(Authors), Text(" "), Slot(DissertationTitle), Text(": дис. "), Slot(Degree), Text(" ... "), Slot(ScienceBranch), Text(". "), Slot(SpecialtyCode), Text(". "), Slot(City), Text(", "), Slot(Year), Text(". С. "), Slot(Pages), Text(".")]

  function DissertationValues(d: DissertationModel): Values
  {
    map[Authors := d.authors, DissertationTitle := d.dissertationTitle, Degree := d.degree, ScienceBranch := d.scienceBranch, SpecialtyCode := d.specialtyCode, City := d.city, Year := NatToString(d.year), Pages := NatToString(d.pages)]
  }

  /** The pieces of a GOST dissertation citation, in order. */
  function DissertationParts(d: DissertationModel): seq<string>
  {
    [d.authors, " ", d.dissertationTitle, ": дис. ", d.degree, " ... ", d.scienceBranch, ". ", d.specialtyCode, ". ", d.city, ", ", NatToString(d.year), ". С. ", NatToString(d.pages), "."]
  }

  /** `GOSTDissertation.formatted`: the template filled left to right. */
  function FormatDissertation(d: DissertationModel): (r: string)
    ensures r == Concat(DissertationParts(d))
  {
    DissertationFilled(d);
    Substitute(DissertationTemplate, DissertationValues(d)).text
  }

  /** Every slot of the template has a value, and the pieces are the ones listed above. */
  lemma DissertationFilled(d: DissertationModel)
    ensures Covered(DissertationTemplate, DissertationValues(d))
    ensures Texts(DissertationTemplate, DissertationValues(d)) == DissertationParts(d)
  {
    var t, env := DissertationTemplate, DissertationValues(d);
    assert Covered(t, env);
  }

  /** With marker-free fields the dissertation citation holds no marker. */
  lemma DissertationMarkers(d: DissertationModel)
    requires MarkerFree(d.authors)
    requires MarkerFree(d.dissertationTitle)
    requires MarkerFree(d.degree)
    requires MarkerFree(d.scienceBranch)
    requires MarkerFree(d.specialtyCode)
    requires MarkerFree(d.city)
    ensures Occurrences(FormatDissertation(d)) == 0
  {
    NumberMarkerFree(d.year);
    NumberMarkerFree(d.pages);
    DissertationLiterals();
    AlternatingSixteenMarkers(DissertationParts(d));
    ConcatMarkers(DissertationParts(d));
  }

  /** The literal texts of the template, checked once. */
  lemma DissertationLiterals()
    ensures Neutral(" ") && Neutral(": дис. ") && Neutral(" ... ") && Neutral(". ")
    ensures Neutral(", ") && Neutral(". С. ") && Neutral(".")
  {
  }

  // ----- Article -----

  const ArticleTemplate: Template := [
    Slot(Authors), Text(" "), Slot(ArticleTitle), Text(" // "), Slot(JournalTitle), Text(". "), Slot(Year), Text(". № "), Slot(JournalNumber), Text(". С. "), Slot(Pages), Text(".")]

  function ArticleValues(a: ArticleModel): Values
  {
    map[Authors := a.authors, ArticleTitle := a.articleTitle, JournalTitle := OptionalText(a.journalTitle), Year := NatToString(a.year), JournalNumber := OptionalNumber(a.journalNumber), Pages := a.pages]
  }

  /** The pieces of a GOST journal-article citation, in order; the doi takes no part.
      An absent journal title or number is written as `None`. */
  function ArticleParts(a: ArticleModel): seq<string>
  {
    [a.authors, " ", a.articleTitle, " // ", OptionalText(a.journalTitle), ". ", NatToString(a.year), ". № ", OptionalNumber(a.journalNumber), ". С. ", a.pages, "."]
  }

  /** `GOSTArticle.formatted`: the template filled left to right. */
  function FormatArticle(a: ArticleModel): (r: string)
    ensures r == Concat(ArticleParts(a))
  {
    ArticleFilled(a);
    Substitute(ArticleTemplate, ArticleValues(a)).text
  }

  /** Every slot of the template has a value, and the pieces are the ones listed above. */
  lemma ArticleFilled(a: ArticleModel)
    ensures Covered(ArticleTemplate, ArticleValues(a))
    ensures Texts(ArticleTemplate, ArticleValues(a)) == ArticleParts(a)
  {
    var t, env := ArticleTemplate, ArticleValues(a);
    assert Covered(t, env);
  }

  /** With marker-free fields the article citation holds no marker. */
  lemma ArticleMarkers(a: ArticleModel)
    requires MarkerFree(a.authors)
    requires MarkerFree(a.articleTitle)
    requires a.journalTitle.Some? ==> MarkerFree(a.journalTitle.value)
    requires MarkerFree(a.pages)
    ensures Occurrences(FormatArticle(a)) == 0
  {
    OptionalTextMarkerFree(a.journalTitle);
    NumberMarkerFree(a.year);
    OptionalNumberMarkerFree(a.journalNumber);
    ArticleLiterals();
    ArticlePartsMarkers(ArticleParts(a));
    ConcatMarkers(ArticleParts(a));
  }

  /** The literal texts of the template, checked once. */
  lemma ArticleLiterals()
    ensures Neutral(" ") && Neutral(" // ") && Neutral(". ") && Neutral(". № ")
    ensures Neutral(". С. ") && Neutral(".")
  {
  }

  /** The marker count of any piece list shaped like the article template. */
  lemma ArticlePartsMarkers(parts: seq<string>)
    requires |parts| == 12
    requires MarkerFree(parts[0]) && MarkerFree(parts[2]) && MarkerFree(parts[4]) && MarkerFree(parts[6]) && MarkerFree(parts[8]) && MarkerFree(parts[10])
    requires Neutral(parts[1])
    requires Neutral(parts[3])
    requires Neutral(parts[5])
    requires Neutral(parts[7])
    requires Neutral(parts[9])
    requires Neutral(parts[11])
    ensures SafeJoints(parts) && MarkerSum(parts) == 0
  {
    NeutralText(parts[1]);
    NeutralText(parts[3]);
    NeutralText(parts[5]);
    NeutralText(parts[7]);
    NeutralText(parts[9]);
    NeutralText(parts[11]);
    // One piece per step, from the end, so that each step is a small query for the solver.
    assert MarkerSum(parts, 11) == 0;
    assert MarkerSum(parts, 10) == 0;
    assert MarkerSum(parts, 9) == 0;
    assert MarkerSum(parts, 8) == 0;
    assert MarkerSum(parts, 7) == 0;
    assert MarkerSum(parts, 6) == 0;
    assert MarkerSum(parts, 5) == 0;
    assert MarkerSum(parts, 4) == 0;
    assert MarkerSum(parts, 3) == 0;
    assert MarkerSum(parts, 2) == 0;
    assert MarkerSum(parts, 1) == 0;
  }

  // ----- The edition and the unused fields -----

  /** A non-empty edition inserts exactly `<edition> изд. – ` into the citation the
      book would have without one (between the title's dash and the city). */
  lemma EditionInserted(b: BookModel)
    requires b.edition.Some? && b.edition.value != ""
    ensures var plain := FormatBook(b.(edition := None));
            exists k :: 0 <= k <= |plain| && FormatBook(b) == plain[..k] + (b.edition.value + EditionSuffix) + plain[k..]
  {
    var x, nb := b.edition.value + EditionSuffix, b.(edition := None);
    BookPartsAroundEdition(b);
    BookPartsAroundEdition(nb);
    assert BeforeEdition(nb) == BeforeEdition(b) && AfterEdition(nb) == AfterEdition(b);
    assert EditionText(b.edition) == x && EditionText(nb.edition) == "";
    var k := PieceInserted(BeforeEdition(b), x, AfterEdition(b));
    assert FormatBook(b) == Concat(BeforeEdition(b) + [x] + AfterEdition(b));
    assert FormatBook(nb) == Concat(BeforeEdition(b) + [""] + AfterEdition(b));
  }

  /** The pieces of the book template before the edition. */
  function BeforeEdition(b: BookModel): seq<string>
  {
    [b.authors, " ", b.title, ". – "]
  }

  /** The pieces of the book template after the edition. */
  function AfterEdition(b: BookModel): seq<string>
  {
    [b.city, ": ", b.publishingHouse, ", ", NatToString(b.year), ". – ", NatToString(b.pages), " с."]
  }

  lemma BookPartsAroundEdition(b: BookModel)
    ensures BookParts(b) == BeforeEdition(b) + [EditionText(b.edition)] + AfterEdition(b)
  {
  }

  /** Replacing an empty piece by `x` inserts `x` into the text, at the position `k`
      where the pieces before it end. */
  lemma PieceInserted(head: seq<string>, x: string, tail: seq<string>) returns (k: nat)
    ensures var plain := Concat(head + [""] + tail);
            k <= |plain| && Concat(head + [x] + tail) == plain[..k] + x + plain[k..]
  {
    ConcatMiddle(head, x, tail);
    ConcatMiddle(head, "", tail);
    var plain := Concat(head + [""] + tail);
    k := |Concat(head)|;
    assert plain == Concat(head) + Concat(tail);
    assert plain[..k] == Concat(head) && plain[k..] == Concat(tail);
  }

  /** An empty edition is written exactly like a missing one. */
  lemma EmptyEditionIsAbsent(b: BookModel)
    ensures FormatBook(b.(edition := Some(""))) == FormatBook(b.(edition := None))
  {
    assert BookParts(b.(edition := Some(""))) == BookParts(b.(edition := None));
  }

  /** The doi of a book or an article never reaches its GOST citation. */
  lemma BookIgnoresDoi(b: BookModel, doi: Option<string>)
    ensures FormatBook(b.(doi := doi)) == FormatBook(b)
  {
    assert BookParts(b.(doi := doi)) == BookParts(b);
  }

  lemma ArticleIgnoresDoi(a: ArticleModel, doi: Option<string>)
    ensures FormatArticle(a.(doi := doi)) == FormatArticle(a)
  {
    assert ArticleParts(a.(doi := doi)) == ArticleParts(a);
  }
}
