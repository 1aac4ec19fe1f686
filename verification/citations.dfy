/**
 The citation list of one style (`APACitationFormatter`, `GOSTCitationFormatter`):
 one formatter per record, chosen by the record's kind from the style's fixed
 five-entry map, then the formatters sorted by their formatted text.
 */
module Citations {
  import opened Options
  import opened Records
  import opened Markers
  import opened StableSort
  import opened Ordering
  import Apa
  import Gost

  datatype Style = ApaStyle | GostStyle

  /** A formatter instance: a record bound to the class its style's map selects for the
      record's kind. Every kind has an entry in both maps, so binding never fails. */
  datatype Formatter = Formatter(style: Style, record: Record)

  /** The `formatted` text of a formatter: the `substitute()` of the class the style's
      map selects for the record's kind. */
  function Formatted(f: Formatter): (r: string)
    ensures f.style == ApaStyle && f.record.BookRecord? ==> r == Apa.FormatBook(f.record.book)
    ensures f.style == ApaStyle && f.record.InternetResourceRecord? ==> r == Apa.FormatInternetResource(f.record.resource)
    ensures f.style == ApaStyle && f.record.ArticlesCollectionRecord? ==> r == Apa.FormatCollectionArticle(f.record.collection)
    ensures f.style == ApaStyle && f.record.DissertationRecord? ==> r == Apa.FormatDissertation(f.record.dissertation)
    ensures f.style == ApaStyle && f.record.ArticleRecord? ==> r == Apa.FormatArticle(f.record.article)
    ensures f.style == GostStyle && f.record.BookRecord? ==> r == Gost.FormatBook(f.record.book)
    ensures f.style == GostStyle && f.record.InternetResourceRecord? ==> r == Gost.FormatInternetResource(f.record.resource)
    ensures f.style == GostStyle && f.record.ArticlesCollectionRecord? ==> r == Gost.FormatCollectionArticle(f.record.collection)
    ensures f.style == GostStyle && f.record.DissertationRecord? ==> r == Gost.FormatDissertation(f.record.dissertation)
    ensures f.style == GostStyle && f.record.ArticleRecord? ==> r == Gost.FormatArticle(f.record.article)
  {
    match f.style
    case ApaStyle => (
      match f.record
      case BookRecord(b) => Apa.FormatBook(b)
      case InternetResourceRecord(w) => Apa.FormatInternetResource(w)
      case ArticlesCollectionRecord(c) => Apa.FormatCollectionArticle(c)
      case DissertationRecord(d) => Apa.FormatDissertation(d)
      case ArticleRecord(a) => Apa.FormatArticle(a))
    case GostStyle => (
      match f.record
      case BookRecord(b) => Gost.FormatBook(b)
      case InternetResourceRecord(w) => Gost.FormatInternetResource(w)
      case ArticlesCollectionRecord(c) => Gost.FormatCollectionArticle(c)
      case DissertationRecord(d) => Gost.FormatDissertation(d)
      case ArticleRecord(a) => Gost.FormatArticle(a))
  }

  /** The constructor: one formatter per record, in input order, all of the given style. */
  method Build(style: Style, records: seq<Record>) returns (items: seq<Formatter>)
    ensures |items| == |records|
    ensures forall i :: 0 <= i < |records| ==> items[i].style == style && items[i].record == records[i]
  {
    items := [];
    var n := 0;
    while n < |records|
      invariant n <= |records| && |items| == n
      invariant forall i :: 0 <= i < n ==> items[i].style == style && items[i].record == records[i]
    {
      items := items + [Formatter(style, records[n])];
      n := n + 1;
    }
  }

  /** `format()`: the formatters sorted by formatted text, a stable sort. */
  function Format(items: seq<Formatter>): (r: seq<Formatter>)
    ensures multiset(r) == multiset(items)
    ensures SortedBy(r, Formatted)
    ensures StableOn(r, items, Formatted)
  {
    SortByStable(items, Formatted);
    SortByPermutes(items, Formatted);
    SortBy(items, Formatted)
  }

  /** Formatting an already formatted list changes nothing. */
  lemma FormatIdempotent(items: seq<Formatter>)
    ensures Format(Format(items)) == Format(items)
  {
    SortBySortedIsIdentity(Format(items), Formatted);
  }

  /** When the formatted texts of some arrangement `t` of the formatters strictly increase
      from each one to the next, `format()` returns exactly that arrangement: with
      distinct texts the output order does not depend on the input order. */
  lemma FormatUnique(items: seq<Formatter>, t: seq<Formatter>)
    requires multiset(items) == multiset(t)
    requires forall i :: 0 <= i < |t| - 1 ==> Less(Formatted(t[i]), Formatted(t[i + 1]))
    ensures Format(items) == t
  {
    StrictChain(t, Formatted);
    SortByStrict(items, t, Formatted);
  }

  /** No field value of the record holds the italic marker. */
  predicate FieldsMarkerFree(r: Record)
  {
    match r
    case BookRecord(b) =>
      && MarkerFree(b.authors) && MarkerFree(b.title) && MarkerFree(b.city) && MarkerFree(b.publishingHouse)
      && (b.edition.Some? ==> MarkerFree(b.edition.value)) && (b.doi.Some? ==> MarkerFree(b.doi.value))
    case InternetResourceRecord(w) =>
      MarkerFree(w.article) && MarkerFree(w.website) && MarkerFree(w.link) && MarkerFree(w.accessDate)
    case ArticlesCollectionRecord(c) =>
      && MarkerFree(c.authors) && MarkerFree(c.articleTitle) && MarkerFree(c.collectionTitle)
      && MarkerFree(c.city) && MarkerFree(c.publishingHouse) && MarkerFree(c.pages)
    case DissertationRecord(d) =>
      && MarkerFree(d.authors) && MarkerFree(d.dissertationTitle) && MarkerFree(d.degree)
      && MarkerFree(d.scienceBranch) && MarkerFree(d.specialtyCode) && MarkerFree(d.city)
    case ArticleRecord(a) =>
      && MarkerFree(a.authors) && MarkerFree(a.articleTitle) && MarkerFree(a.pages)
      && (a.journalTitle.Some? ==> MarkerFree(a.journalTitle.value)) && (a.doi.Some? ==> MarkerFree(a.doi.value))
  }

  /** How many markers the style's template for the record's kind writes: two around the
      italic span in every APA layout but the dissertation, none in GOST. */
  function TemplateMarkers(style: Style, r: Record): nat
  {
    if style == GostStyle || r.DissertationRecord? then 0 else 2
  }

  /** With marker-free fields, a formatted text holds exactly the markers of its
      template, so a document writer splitting it at the marker finds one italic span
      or none. */
  lemma FormattedMarkers(f: Formatter)
    requires FieldsMarkerFree(f.record)
    ensures Occurrences(Formatted(f)) == TemplateMarkers(f.style, f.record)
  {
    match f.style
    case ApaStyle =>
      match f.record {
        case BookRecord(b) => Apa.BookMarkers(b);
        case InternetResourceRecord(w) => Apa.InternetResourceMarkers(w);
        case ArticlesCollectionRecord(c) => Apa.CollectionArticleMarkers(c);
        case DissertationRecord(d) => Apa.DissertationMarkers(d);
        case ArticleRecord(a) => Apa.ArticleMarkers(a);
      }
    case GostStyle =>
      match f.record {
        case BookRecord(b) => Gost.BookMarkers(b);
        case InternetResourceRecord(w) => Gost.InternetResourceMarkers(w);
        case ArticlesCollectionRecord(c) => Gost.CollectionArticleMarkers(c);
        case DissertationRecord(d) => Gost.DissertationMarkers(d);
        case ArticleRecord(a) => Gost.ArticleMarkers(a);
      }
  }
}
