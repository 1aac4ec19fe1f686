/**
 The five sample records of the repository's test fixtures and the citations
 its APA tests expect for them, as lemmas about the model; plus the GOST
 article example from the documentation of `GOSTArticle`.
 */
module Fixtures {
  import opened Strings
  import opened Options
  import opened Records
  import opened Ordering
  import opened StableSort
  import opened Citations
  import Apa
  import Gost

  /** `Иванов И.М., Петров С.Н.`, kept as its two comma-free halves and the comma. */
  const FirstAuthor: string := "Иванов И.М."
  const SecondAuthor: string := " Петров С.Н."
  const TwoAuthors: string := FirstAuthor + "," + SecondAuthor

  const BookFixture := BookModel(
    TwoAuthors, "Наука как искусство", Some("3-е"), "СПб.", "Просвещение", 2020, 999, Some("10.2196/16504"))

  const InternetResourceFixture := InternetResourceModel(
    "Наука как искусство", "Ведомости", "https://www.vedomosti.ru", "01.01.2021")

  const CollectionFixture := ArticlesCollectionModel(
    TwoAuthors, "Наука как искусство", "Сборник научных трудов", "СПб.", "АСТ", 2020, "25-30")

  const ArticleFixture := ArticleModel(
    TwoAuthors, "Наука как искусство", Some("Образование и наука"), 2020, Some(10), "25-30", Some("10.2196/16504"))

  const DissertationFixture := DissertationModel(
    FirstAuthor, "Наука как искусство", "д-р.", "экон.", "01.01.01", "СПб.", 2020, 199)

  /** Two comma-free authors joined by one comma come out joined by `, & `. */
  lemma TwoAuthorsJoined(first: string, second: string)
    requires ',' !in first && ',' !in second
    ensures Apa.FormatAuthorsAsWritten(first + "," + second) == first + ", & " + second
  {
    SplitJoin([first, second], ',');
    assert Join([first, second], ",") == first + "," + second;
    assert Join([first, second], ", & ") == first + ", & " + second;
  }

  /** The fixture's two authors: the second keeps its leading space. */
  lemma TwoAuthorsFormatted()
    ensures Apa.FormatAuthorsAsWritten(TwoAuthors) == FirstAuthor + ", & " + SecondAuthor
  {
    TwoAuthorsJoined(FirstAuthor, SecondAuthor);
  }

  /** The decimal texts of the fixtures' numbers. */
  lemma NumberTexts()
    ensures NatToString(2020) == "2020" && NatToString(10) == "10" && NatToString(199) == "199"
  {
  }

  /** The book citation the APA tests expect. */
  lemma BookCitation(b: BookModel)
    requires b.authors == TwoAuthors && b.year == 2020 && b.title == "Наука как искусство"
    requires b.publishingHouse == "Просвещение" && b.doi == Some("10.2196/16504")
    ensures Apa.FormatBook(b)
         == Concat(["Иванов И.М." + ", & " + " Петров С.Н.", " (", "2020", "). ITALIC", "Наука как искусство",
                   ".ITALIC ", "Просвещение", ". ", "10.2196/16504"])
  {
    TwoAuthorsFormatted();
    NumberTexts();
  }

  /** The journal article citation the APA tests expect. */
  lemma ArticleCitation(a: ArticleModel)
    requires a.authors == TwoAuthors && a.year == 2020 && a.articleTitle == "Наука как искусство"
    requires a.journalTitle == Some("Образование и наука") && a.journalNumber == Some(10)
    requires a.pages == "25-30" && a.doi == Some("10.2196/16504")
    ensures Apa.FormatArticle(a)
         == Concat(["Иванов И.М." + ", & " + " Петров С.Н.", " (", "2020", "). ", "Наука как искусство",
                   ". ITALIC", "Образование и наука", ",ITALIC ", "10", ", ", "25-30", ". ",
                   "10.2196/16504"])
  {
    TwoAuthorsFormatted();
    NumberTexts();
  }

  /** The dissertation citation the APA tests expect. */
  lemma DissertationCitation(d: DissertationModel)
    requires d.authors == FirstAuthor && d.dissertationTitle == "Наука как искусство" && d.degree == "д-р."
    requires d.scienceBranch == "экон." && d.specialtyCode == "01.01.01" && d.city == "СПб."
    requires d.year == 2020 && d.pages == 199
    ensures Apa.FormatDissertation(d)
         == Concat(["Иванов И.М.", " (", "2020", ") ", "Наука как искусство", ", дис. [", "д-р.",
                   " ", "экон.", " ", "01.01.01", "] ", "СПб.", ", ", "199", " p."])
  {
    Apa.AuthorsSingle(d.authors);
    NumberTexts();
  }

  /** The internet resource citation the APA tests expect. */
  lemma InternetResourceCitation(w: InternetResourceModel)
    requires w.article == "Наука как искусство" && w.website == "Ведомости"
    requires w.link == "https://www.vedomosti.ru" && w.accessDate == "01.01.2021"
    ensures Apa.FormatInternetResource(w)
         == Concat(["Ведомости", " (", "01.01.2021", ") ITALIC", "Наука как искусство", " ITALIC ",
                   "https://www.vedomosti.ru"])
  {
  }

  /** The collection article citation the APA tests expect: the authors as written. */
  lemma CollectionArticleCitation(c: ArticlesCollectionModel)
    requires c.authors == TwoAuthors && c.articleTitle == "Наука как искусство" && c.collectionTitle == "Сборник научных трудов"
    requires c.city == "СПб." && c.publishingHouse == "АСТ" && c.year == 2020 && c.pages == "25-30"
    ensures Apa.FormatCollectionArticle(c)
         == Concat(["Иванов И.М." + "," + " Петров С.Н.", " (", "2020", ") ", "Наука как искусство",
                   ", ITALIC", "Сборник научных трудов", " ITALIC ", "СПб.", ": ", "АСТ", ", ",
                   "25-30", " p."])
  {
    NumberTexts();
  }

  /** The example in the documentation of `GOSTArticle`: the authors as written. */
  lemma GostArticleCitation(a: ArticleModel)
    requires a.authors == TwoAuthors && a.articleTitle == "Наука как искусство2"
    requires a.journalTitle == Some("Образование и наука") && a.year == 2020 && a.journalNumber == Some(10) && a.pages == "25-30"
    ensures Gost.FormatArticle(a)
         == Concat(["Иванов И.М." + "," + " Петров С.Н.", " ", "Наука как искусство2", " // ",
                   "Образование и наука", ". ", "2020", ". № ", "10", ". С. ", "25-30", "."])
  {
    NumberTexts();
  }

  /** `BookFixture` meets the requirements of `BookCitation`. */
  lemma BookFixtureCitation()
    ensures Apa.FormatBook(BookFixture)
         == Concat(["Иванов И.М." + ", & " + " Петров С.Н.", " (", "2020", "). ITALIC", "Наука как искусство",
                   ".ITALIC ", "Просвещение", ". ", "10.2196/16504"])
  {
    BookCitation(BookFixture);
  }

  /** `ArticleFixture` meets the requirements of `ArticleCitation`. */
  lemma ArticleFixtureCitation()
    ensures Apa.FormatArticle(ArticleFixture)
         == Concat(["Иванов И.М." + ", & " + " Петров С.Н.", " (", "2020", "). ", "Наука как искусство",
                   ". ITALIC", "Образование и наука", ",ITALIC ", "10", ", ", "25-30", ". ",
                   "10.2196/16504"])
  {
    ArticleCitation(ArticleFixture);
  }

  /** `DissertationFixture` meets the requirements of `DissertationCitation`. */
  lemma DissertationFixtureCitation()
    ensures Apa.FormatDissertation(DissertationFixture)
         == Concat(["Иванов И.М.", " (", "2020", ") ", "Наука как искусство", ", дис. [", "д-р.",
                   " ", "экон.", " ", "01.01.01", "] ", "СПб.", ", ", "199", " p."])
  {
    DissertationCitation(DissertationFixture);
  }

  /** `InternetResourceFixture` meets the requirements of `InternetResourceCitation`. */
  lemma InternetResourceFixtureCitation()
    ensures Apa.FormatInternetResource(InternetResourceFixture)
         == Concat(["Ведомости", " (", "01.01.2021", ") ITALIC", "Наука как искусство", " ITALIC ",
                   "https://www.vedomosti.ru"])
  {
    InternetResourceCitation(InternetResourceFixture);
  }

  /** `CollectionFixture` meets the requirements of `CollectionArticleCitation`. */
  lemma CollectionFixtureCitation()
    ensures Apa.FormatCollectionArticle(CollectionFixture)
         == Concat(["Иванов И.М." + "," + " Петров С.Н.", " (", "2020", ") ", "Наука как искусство",
                   ", ITALIC", "Сборник научных трудов", " ITALIC ", "СПб.", ": ", "АСТ", ", ",
                   "25-30", " p."])
  {
    CollectionArticleCitation(CollectionFixture);
  }

  /** A website sorts before an author when its first character is smaller. */
  lemma ResourceBeforeDissertation(w: InternetResourceModel, d: DissertationModel)
    requires |w.website| > 0 && |d.authors| > 0 && ',' !in d.authors
    requires w.website[0] < d.authors[0]
    ensures Less(Apa.FormatInternetResource(w), Apa.FormatDissertation(d))
  {
    Apa.AuthorsSingle(d.authors);
    FirstPieceLess(Apa.InternetResourceParts(w), Apa.DissertationParts(d));
  }

  /** Lists whose first pieces start with different characters are ordered by those. */
  lemma FirstPieceLess(xs: seq<string>, ys: seq<string>)
    requires |xs| > 0 && |ys| > 0 && |xs[0]| > 0 && |ys[0]| > 0 && xs[0][0] < ys[0][0]
    ensures Less(Concat(xs), Concat(ys))
  {
    LessAfterCommonPrefix(Concat(xs), Concat(ys), "", Concat(xs), Concat(ys));
  }

  /** A lone author followed by ` (` sorts before the same author followed by a comma
      and a second author. */
  lemma DissertationBeforeBook(d: DissertationModel, b: BookModel, second: string)
    requires ',' !in d.authors && ',' !in second
    requires b.authors == d.authors + "," + second
    ensures Less(Apa.FormatDissertation(d), Apa.FormatBook(b))
  {
    Apa.AuthorsSingle(d.authors);
    TwoAuthorsJoined(d.authors, second);
    SameHeadLess(Apa.DissertationParts(d), Apa.BookParts(b), d.authors, second);
  }

  /** Pieces `author`, ` (`, ... sort before pieces `author, & second`, ... . */
  lemma SameHeadLess(xs: seq<string>, ys: seq<string>, author: string, second: string)
    requires |xs| > 1 && |ys| > 0 && xs[0] == author && xs[1] == " (" && ys[0] == author + ", & " + second
    ensures Less(Concat(xs), Concat(ys))
  {
    var x := " (" + Concat(xs[2..]);
    var y := ", & " + (second + Concat(ys[1..]));
    assert Concat(xs) == author + x by {
      assert xs[1..][1..] == xs[2..];
    }
    assert Concat(ys) == author + y by {
      assert Concat(ys) == (author + ", & " + second) + Concat(ys[1..]);
    }
    assert x[0] == ' ' && y[0] == ',';
    LessAfterCommonPrefix(Concat(xs), Concat(ys), author, x, y);
  }

  /** Book and article by the same authors in the same year agree up to `). `; the book
      goes on with the italic marker, the article with its title. */
  lemma BookBeforeArticle(b: BookModel, a: ArticleModel)
    requires b.authors == a.authors && b.year == a.year
    requires |a.articleTitle| > 0 && 'I' < a.articleTitle[0]
    ensures Less(Apa.FormatBook(b), Apa.FormatArticle(a))
  {
    var xs, ys := Apa.BookParts(b), Apa.ArticleParts(a);
    assert xs[3] == ys[3] + "ITALIC";
    MarkerAfterYearLess(xs, ys, "ITALIC");
  }

  /** Lists that agree on three pieces, then have a fourth piece that extends the other
      list's fourth piece by a text starting below the other list's fifth piece, are
      ordered. */
  lemma MarkerAfterYearLess(xs: seq<string>, ys: seq<string>, more: string)
    requires |xs| > 4 && |ys| > 4 && xs[0] == ys[0] && xs[1] == ys[1] && xs[2] == ys[2]
    requires xs[3] == ys[3] + more && |more| > 0 && |ys[4]| > 0 && more[0] < ys[4][0]
    ensures Less(Concat(xs), Concat(ys))
  {
    assert xs[..3] == ys[..3];
    ConcatAt(xs, 3);
    ConcatAt(ys, 3);
    var y := Concat(ys[4..]);
    assert y[0] == ys[4][0] by {
      assert ys[4..][0] == ys[4];
    }
    LessAfterExtension(Concat(xs[..3]), ys[3], more, Concat(xs[4..]), y);
  }

  /** A second author written after the comma with a space and then a letter above `&`. */
  predicate SecondAuthorShape(second: string)
  {
    ',' !in second && |second| > 1 && second[0] == ' ' && '&' < second[1]
  }

  /** The article rewrites the comma between two authors to `, & `; the collection keeps
      it as written, so the two part where the second author's name begins. */
  lemma ArticleBeforeCollection(a: ArticleModel, c: ArticlesCollectionModel, first: string, second: string)
    requires ',' !in first && ',' !in second
    requires a.authors == first + "," + second && c.authors == a.authors
    requires SecondAuthorShape(second)
    ensures Less(Apa.FormatArticle(a), Apa.FormatCollectionArticle(c))
  {
    TwoAuthorsJoined(first, second);
    AmpersandLess(Apa.ArticleParts(a), Apa.CollectionArticleParts(c), first, second);
  }

  /** Pieces led by `first, & second` sort before pieces led by `first,second` when
      the second name starts with a space and then a character above `&`. */
  lemma AmpersandLess(xs: seq<string>, ys: seq<string>, first: string, second: string)
    requires |xs| > 0 && |ys| > 0 && xs[0] == first + ", & " + second && ys[0] == first + "," + second
    requires |second| > 1 && second[0] == ' ' && '&' < second[1]
    ensures Less(Concat(xs), Concat(ys))
  {
    AmpersandHead(xs, first, second);
    CommaHead(ys, first, second);
    var x, y := "& " + (second + Concat(xs[1..])), second[1..] + Concat(ys[1..]);
    assert x[0] == '&' && y[0] == second[1];
    LessAfterCommonPrefix(Concat(xs), Concat(ys), first + ", ", x, y);
  }

  /** Pieces led by `first, & second` read `first, ` and then `& `. */
  lemma AmpersandHead(xs: seq<string>, first: string, second: string)
    requires |xs| > 0 && xs[0] == first + ", & " + second
    ensures Concat(xs) == (first + ", ") + ("& " + (second + Concat(xs[1..])))
  {
    assert ", & " == ", " + "& ";
    RegroupFive(first, ", ", "& ", second, Concat(xs[1..]));
  }

  /** Pieces led by `first,second`, the second name starting with a space, read
      `first, ` and then the rest of the second name. */
  lemma CommaHead(ys: seq<string>, first: string, second: string)
    requires |ys| > 0 && ys[0] == first + "," + second && |second| > 0 && second[0] == ' '
    ensures Concat(ys) == (first + ", ") + (second[1..] + Concat(ys[1..]))
  {
    assert ", " == "," + " " && second == " " + second[1..];
    RegroupFive(first, ",", " ", second[1..], Concat(ys[1..]));
  }

  lemma RegroupFive(a: string, b: string, c: string, d: string, e: string)
    ensures ((a + (b + c)) + d) + e == (a + b) + (c + (d + e))
  {
  }

  /** An APA formatter for each kind of record. */
  function ApaBook(b: BookModel): Formatter { Formatter(ApaStyle, BookRecord(b)) }
  function ApaResource(w: InternetResourceModel): Formatter { Formatter(ApaStyle, InternetResourceRecord(w)) }
  function ApaCollection(c: ArticlesCollectionModel): Formatter { Formatter(ApaStyle, ArticlesCollectionRecord(c)) }
  function ApaArticle(a: ArticleModel): Formatter { Formatter(ApaStyle, ArticleRecord(a)) }
  function ApaDissertation(d: DissertationModel): Formatter { Formatter(ApaStyle, DissertationRecord(d)) }

  /** The formatted text of each APA formatter is its class's citation. */
  lemma ResourceFormatted(w: InternetResourceModel)
    ensures Formatted(ApaResource(w)) == Apa.FormatInternetResource(w)
  {
  }

  lemma DissertationFormatted(d: DissertationModel)
    ensures Formatted(ApaDissertation(d)) == Apa.FormatDissertation(d)
  {
  }

  lemma BookFormatted(b: BookModel)
    ensures Formatted(ApaBook(b)) == Apa.FormatBook(b)
  {
  }

  lemma ArticleFormatted(a: ArticleModel)
    ensures Formatted(ApaArticle(a)) == Apa.FormatArticle(a)
  {
  }

  lemma CollectionFormatted(c: ArticlesCollectionModel)
    ensures Formatted(ApaCollection(c)) == Apa.FormatCollectionArticle(c)
  {
  }

  /** Three elements whose keys decrease are sorted into reverse order. */
  lemma SortThreeReversed<T>(x3: T, x4: T, x5: T, key: T -> string)
    requires Less(key(x5), key(x4)) && Less(key(x4), key(x3))
    ensures SortBy([x3, x4, x5], key) == [x5, x4, x3]
  {
    LessTransitive(key(x5), key(x4), key(x3));
    NotLessEqBack(key(x5), key(x4));
    NotLessEqBack(key(x5), key(x3));
    NotLessEqBack(key(x4), key(x3));
    assert SortBy([], key) == [];
    SortByCons(x5, [], key);
    InsertFront(x5, [], key);
    assert [x5] + [] == [x5];
    assert SortBy([x5], key) == [x5];

    SortByCons(x4, [x5], key);
    InsertPast(x4, x5, [], key);
    InsertFront(x4, [], key);
    assert [x4] + [x5] == [x4, x5] && [x5] + ([x4] + []) == [x5, x4];
    assert SortBy([x4, x5], key) == [x5, x4];

    SortByCons(x3, [x4, x5], key);
    InsertPast(x3, x5, [x4], key);
    InsertPast(x3, x4, [], key);
    InsertFront(x3, [], key);
    assert [x3] + [x4, x5] == [x3, x4, x5] && [x5] + [x4] == [x5, x4];
    assert [x5] + ([x4] + ([x3] + [])) == [x5, x4, x3];
  }

  /** Five elements whose keys increase in the order second, fifth, first, fourth,
      third are sorted into that order. */
  lemma SortFive<T>(x1: T, x2: T, x3: T, x4: T, x5: T, key: T -> string)
    requires Less(key(x2), key(x5)) && Less(key(x5), key(x1)) && Less(key(x1), key(x4)) && Less(key(x4), key(x3))
    ensures SortBy([x1, x2, x3, x4, x5], key) == [x2, x5, x1, x4, x3]
  {
    LessTransitive(key(x5), key(x1), key(x4));
    LessTransitive(key(x2), key(x5), key(x1));
    NotLessEqBack(key(x2), key(x1));
    NotLessEqBack(key(x5), key(x1));
    SortThreeReversed(x3, x4, x5, key);

    SortByCons(x2, [x3, x4, x5], key);
    InsertFront(x2, [x5, x4, x3], key);
    assert [x2] + [x3, x4, x5] == [x2, x3, x4, x5] && [x2] + [x5, x4, x3] == [x2, x5, x4, x3];
    assert SortBy([x2, x3, x4, x5], key) == [x2, x5, x4, x3];

    SortByCons(x1, [x2, x3, x4, x5], key);
    InsertPast(x1, x2, [x5, x4, x3], key);
    InsertPast(x1, x5, [x4, x3], key);
    InsertFront(x1, [x4, x3], key);
    assert [x1] + [x2, x3, x4, x5] == [x1, x2, x3, x4, x5];
    assert [x2] + [x5, x4, x3] == [x2, x5, x4, x3] && [x5] + [x4, x3] == [x5, x4, x3];
    assert [x2] + ([x5] + ([x1] + [x4, x3])) == [x2, x5, x1, x4, x3];
  }

  /** Five records shaped like the fixtures -- a website starting below the first
      author, that author alone on the dissertation, the same two authors and year on
      the others, an article title starting above `I` -- given as book, internet
      resource, collection article, article, dissertation, sort as internet resource,
      dissertation, book, article, collection article. */
  lemma FixtureShapeOrder(
    b: BookModel, w: InternetResourceModel, c: ArticlesCollectionModel, a: ArticleModel, d: DissertationModel,
    second: string)
    requires ',' !in d.authors && |d.authors| > 0 && |w.website| > 0 && w.website[0] < d.authors[0]
    requires SecondAuthorShape(second)
    requires b.authors == d.authors + "," + second && a.authors == b.authors && c.authors == b.authors
    requires b.year == a.year && |a.articleTitle| > 0 && 'I' < a.articleTitle[0]
    ensures Format([ApaBook(b), ApaResource(w), ApaCollection(c), ApaArticle(a), ApaDissertation(d)])
         == [ApaResource(w), ApaDissertation(d), ApaBook(b), ApaArticle(a), ApaCollection(c)]
  {
    ResourceBeforeDissertation(w, d);
    DissertationBeforeBook(d, b, second);
    BookBeforeArticle(b, a);
    ArticleBeforeCollection(a, c, d.authors, second);
    ResourceFormatted(w);
    DissertationFormatted(d);
    BookFormatted(b);
    ArticleFormatted(a);
    CollectionFormatted(c);
    SortFive(ApaBook(b), ApaResource(w), ApaCollection(c), ApaArticle(a), ApaDissertation(d), Formatted);
  }

  /** The sort order the APA tests expect for the five fixtures, given in the order
      book, internet resource, collection article, article, dissertation: internet
      resource, dissertation, book, article, collection article. */
  lemma FixtureOrder()
    ensures Format([ApaBook(BookFixture), ApaResource(InternetResourceFixture), ApaCollection(CollectionFixture),
                    ApaArticle(ArticleFixture), ApaDissertation(DissertationFixture)])
         == [ApaResource(InternetResourceFixture), ApaDissertation(DissertationFixture), ApaBook(BookFixture),
             ApaArticle(ArticleFixture), ApaCollection(CollectionFixture)]
  {
    FixtureShapeOrder(BookFixture, InternetResourceFixture, CollectionFixture, ArticleFixture, DissertationFixture,
      SecondAuthor);
  }
}
