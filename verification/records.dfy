/** Python's `Optional[T]`. */
module Options {
  datatype Option<T> = None | Some(value: T)
}

/**
 The five bibliographic record shapes and their construction-time validation.
 A record value of these types is always valid: the numeric fields that must
 be strictly positive have the subset type `Positive`, and the `New...`
 functions are the only way from raw input to a record, rejecting a
 non-positive value with the names of the offending fields.
 */
module Records {
  import opened Options

  type Positive = n: int | n > 0 witness 1

  datatype BookModel = BookModel(
    authors: string,
    title: string,
    edition: Option<string>,
    city: string,
    publishingHouse: string,
    year: Positive,
    pages: Positive,
    doi: Option<string>)

  datatype InternetResourceModel = InternetResourceModel(
    article: string,
    website: string,
    link: string,
    accessDate: string)

  datatype ArticlesCollectionModel = ArticlesCollectionModel(
    authors: string,
    articleTitle: string,
    collectionTitle: string,
    city: string,
    publishingHouse: string,
    year: Positive,
    pages: string)

  datatype DissertationModel = DissertationModel(
    authors: string,
    dissertationTitle: string,
    degree: string,
    scienceBranch: string,
    specialtyCode: string,
    city: string,
    year: Positive,
    pages: Positive)

  datatype ArticleModel = ArticleModel(
    authors: string,
    articleTitle: string,
    journalTitle: Option<string>,
    year: Positive,
    journalNumber: Option<Positive>,
    pages: string,
    doi: Option<string>)

  /** A record of any of the five kinds. */
  datatype Record =
    | BookRecord(book: BookModel)
    | InternetResourceRecord(resource: InternetResourceModel)
    | ArticlesCollectionRecord(collection: ArticlesCollectionModel)
    | DissertationRecord(dissertation: DissertationModel)
    | ArticleRecord(article: ArticleModel)

  /** The outcome of validating raw input: the record, or the names of the fields
      that broke a constraint, in declaration order. */
  datatype Validated<T> = Valid(value: T) | Invalid(fields: seq<string>)

  /** The name `field` when `ok` fails. */
  function Check(field: string, ok: bool): (r: seq<string>)
    ensures field in r <==> !ok
    ensures forall f :: f in r ==> f == field
    ensures |r| <= 1
  {
    if ok then [] else [field]
  }

  function NewBook(
    authors: string, title: string, edition: Option<string>, city: string,
    publishingHouse: string, year: int, pages: int, doi: Option<string>): (r: Validated<BookModel>)
    ensures r.Valid? <==> year > 0 && pages > 0
    ensures r.Valid? ==> r.value == BookModel(authors, title, edition, city, publishingHouse, year, pages, doi)
    ensures r.Invalid? ==> ("year" in r.fields <==> year <= 0) && ("pages" in r.fields <==> pages <= 0)
    ensures r.Invalid? ==> forall f :: f in r.fields ==> f == "year" || f == "pages"
  {
    var bad := Check("year", year > 0) + Check("pages", pages > 0);
    if |bad| == 0 then Valid(BookModel(authors, title, edition, city, publishingHouse, year, pages, doi))
    else Invalid(bad)
  }

  function NewArticlesCollection(
    authors: string, articleTitle: string, collectionTitle: string, city: string,
    publishingHouse: string, year: int, pages: string): (r: Validated<ArticlesCollectionModel>)
    ensures r.Valid? <==> year > 0
    ensures r.Valid? ==> r.value == ArticlesCollectionModel(authors, articleTitle, collectionTitle, city, publishingHouse, year, pages)
    ensures r.Invalid? ==> r.fields == ["year"]
  {
    var bad := Check("year", year > 0);
    if |bad| == 0 then Valid(ArticlesCollectionModel(authors, articleTitle, collectionTitle, city, publishingHouse, year, pages))
    else Invalid(bad)
  }

  function NewDissertation(
    authors: string, dissertationTitle: string, degree: string, scienceBranch: string,
    specialtyCode: string, city: string, year: int, pages: int): (r: Validated<DissertationModel>)
    ensures r.Valid? <==> year > 0 && pages > 0
    ensures r.Valid? ==> r.value == DissertationModel(authors, dissertationTitle, degree, scienceBranch, specialtyCode, city, year, pages)
    ensures r.Invalid? ==> ("year" in r.fields <==> year <= 0) && ("pages" in r.fields <==> pages <= 0)
    ensures r.Invalid? ==> forall f :: f in r.fields ==> f == "year" || f == "pages"
  {
    var bad := Check("year", year > 0) + Check("pages", pages > 0);
    if |bad| == 0 then Valid(DissertationModel(authors, dissertationTitle, degree, scienceBranch, specialtyCode, city, year, pages))
    else Invalid(bad)
  }

  /** An absent journal number is allowed; a present one must be positive. */
  function NewArticle(
    authors: string, articleTitle: string, journalTitle: Option<string>, year: int,
    journalNumber: Option<int>, pages: string, doi: Option<string>): (r: Validated<ArticleModel>)
    ensures r.Valid? <==> year > 0 && (journalNumber.Some? ==> journalNumber.value > 0)
    ensures r.Valid? ==> && r.value.journalNumber.Some? == journalNumber.Some?
                         && (journalNumber.Some? ==> r.value.journalNumber.value == journalNumber.value)
                         && r.value.year == year
                         && r.value == ArticleModel(authors, articleTitle, journalTitle, year, r.value.journalNumber, pages, doi)
    ensures r.Invalid? ==> && ("year" in r.fields <==> year <= 0)
                           && ("journal_number" in r.fields <==> journalNumber.Some? && journalNumber.value <= 0)
    ensures r.Invalid? ==> forall f :: f in r.fields ==> f == "year" || f == "journal_number"
  {
    var numberOk := journalNumber.None? || journalNumber.value > 0;
    var bad := Check("year", year > 0) + Check("journal_number", numberOk);
    if |bad| == 0 then
      var number: Option<Positive> := if journalNumber.Some? then Some(journalNumber.value) else None;
      Valid(ArticleModel(authors, articleTitle, journalTitle, year, number, pages, doi))
    else Invalid(bad)
  }
}
