# Citation formatting engine — a Dafny model

This project models the core of a bibliography generator. It turns bibliographic
records into citation strings in two styles, APA (American Psychological
Association, 7th edition) and GOST R 7.0.5-2008, and sorts a list of citations.

- **Records.** The five record kinds are book, internet resource, article in a
  collection, dissertation and journal article. Each has its positivity
  constraints: `year`, `pages` and `journal_number` must be greater than zero.
- **Formatting.** Each record kind has one citation class per style. Each class
  fills a fixed `string.Template` with the record's fields. Along the way it may:
  - rewrite the author list (APA `get_authors`);
  - drop a missing doi (APA `get_doi`);
  - spell out the edition (GOST `get_edition`).
- **Sorting.** The per-style citation formatter binds every record to the class
  its style's map selects. Its `format()` returns the bound formatters sorted by
  their formatted text.

Modules, one per concern:

- `Options`, `Records` (`records.dfy`): the record datatypes, a subset type for
  the positive fields, and validating constructors. A validating constructor
  either returns the record or names the fields that broke a constraint.
- `Strings` (`strings.dfy`): Python's `str.split` on one character,
  `sep.join`, `"".join`, character replacement and `str(n)` for naturals.
- `Templates` (`templates.dfy`): `Template(...).substitute(...)` on a parsed
  template. It fills the slots left to right and reports the first missing key.
  Also `str(None)` for optional fields.
- `Markers` (`markers.dfy`): counts the `ITALIC` token that brackets the
  italic span of an APA citation.
- `Apa`, `Gost` (`apa.dfy`, `gost.dfy`): the ten citation classes and their
  helpers.
- `Ordering`, `StableSort` (`ordering.dfy`, `stable_sort.dfy`):
  - Python's code-point string order;
  - a stable insertion sort by key, standing in for `sorted(..., key=...)`.
- `Citations` (`citations.dfy`): the two citation formatters (class map,
  constructor, `format()`).
- `Fixtures` (`fixtures.dfy`): the repository's sample records, with:
  - the APA citations its tests expect;
  - the sort order its list test expects;
  - the GOST article example from the class documentation.

Every citation function `FormatX` is defined by substituting the style's
template. Its contract says that the result is the concatenation of an explicit
piece list (`XParts`). The lemma `XFilled` states that substitution succeeds,
because every slot has a value, and yields exactly those pieces.

## Model

| member | source | states |
|---|---|---|
| Records.NewBook | src/formatters/models.py:10-35 | a book is built exactly when `year > 0` and `pages > 0`; otherwise the rejection names precisely the failing fields |
| Records.NewArticlesCollection | src/formatters/models.py:58-82 | a collection article is built exactly when `year > 0`; otherwise the only failing field is `year` |
| Records.NewDissertation | src/formatters/models.py:85-110 | a dissertation is built exactly when `year > 0` and `pages > 0`; the rejection names each failing field |
| Records.NewArticle | src/formatters/models.py:113-135 | an article is built exactly when `year > 0` and the journal number is absent or positive; the rejection names each failing field |
| Templates.Substitute | src/formatters/styles/apa.py:79-85 | substitution succeeds exactly when every slot has a value and then yields the pieces' texts in order; otherwise it reports a key that has no value and that every earlier slot is filled |
| Templates.SubstituteIgnoresOtherKeys | src/formatters/styles/apa.py:79-85 | values for keys the template does not use never change the outcome |
| Strings.Split | src/formatters/styles/apa.py:39 | `split(",")` yields one piece more than there are commas, and no piece holds a comma |
| Strings.SplitJoin | src/formatters/styles/apa.py:39 | splitting a join of comma-free pieces returns those pieces |
| Strings.JoinSplit | src/formatters/styles/apa.py:39 | joining the split pieces with the separator rebuilds the input |
| Strings.ReplaceSplit | src/formatters/styles/apa.py:57-60 | joining the split pieces with `t` is replacing every separator by `t` |
| Strings.NatToString | src/formatters/styles/apa.py:83 | `str(year)` is a non-empty digit string without a leading zero; it has one digit exactly for numbers below ten |
| Strings.ParseRendered | src/formatters/styles/apa.py:83 | reading back the decimal text of `n` gives `n` |
| Strings.RenderParsed | src/formatters/styles/apa.py:83 | a canonical digit string is the decimal text of the number it denotes |
| Strings.NatToStringInjective | src/formatters/styles/apa.py:83 | different numbers have different decimal texts |
| Apa.DoiText | src/formatters/styles/apa.py:22-30 | the doi text is empty exactly when the doi is absent or empty, and is otherwise the doi itself |
| Apa.FormatAuthorsAsWritten | src/formatters/styles/apa.py:33-61 | `get_authors` as written: comma-free input comes back unchanged; 2 to 20 pieces come back with every comma replaced by `, & `; more than 20 pieces become `L, ... L`, L being the last piece |
| Apa.FormatAuthors | src/formatters/styles/apa.py:33-61 | the corrected `get_authors` of the Findings section: the same as written up to 20 pieces; above that the first 18 pieces, then `... ` and the last piece, joined by `, ` |
| Apa.AuthorsSingle | src/formatters/styles/apa.py:39-44 | input without a comma is returned unchanged |
| Apa.AuthorsJoined | src/formatters/styles/apa.py:56-60 | as written, with 2 to 20 pieces every comma becomes `, & `, so the text grows by 3 characters per comma and gains one `&` per comma |
| Apa.AuthorsTruncated | src/formatters/styles/apa.py:46-55 | the corrected rule of the Findings section, not what these lines do: with more than 20 pieces, the first 18 pieces, then `... ` and the last piece, joined by `, `; splitting the result at commas gives the first piece and then the other kept pieces, each behind one more space |
| Apa.TruncateResplit | src/formatters/styles/apa.py:47-55 | the corrected rule of the Findings section, not what these lines do: for comma-free pieces the truncated list is the `, `-join of the kept pieces and re-splits into the first piece and the others, each behind one more space |
| Apa.AuthorsAgreeUpToTwenty | src/formatters/styles/apa.py:39-61 | the corrected and as-written author functions agree whenever there are at most 20 pieces |
| Apa.AuthorsAsWrittenTruncated | src/formatters/styles/apa.py:47-55 | as written, any list of more than 20 pieces becomes `L, ... L`, L being the last piece |
| Apa.AuthorsAsWrittenDropsLeading | src/formatters/styles/apa.py:47-55 | for a 21-author input `a,…,u`, the code as written returns `u, ... u`, while the corrected function keeps `a` first |
| Apa.AuthorsMarkerFree | src/formatters/styles/apa.py:33-61 | the corrected author rewriting never creates an `ITALIC` token |
| Apa.AuthorsAsWrittenMarkerFree | src/formatters/styles/apa.py:33-61 | `get_authors` as written never creates an `ITALIC` token, the long-list branch `L, ... L` included |
| Apa.FormatBook | src/formatters/styles/apa.py:64-85 | the book template `$authors ($year). ITALIC$title.ITALIC $publishing_house. $doi` filled with `get_authors` as written (`Apa.FormatAuthorsAsWritten`) and the doi text |
| Apa.BookFilled | src/formatters/styles/apa.py:73-85 | every slot of the book template has a value, and the filled pieces are the listed ones |
| Apa.BookMarkers | src/formatters/styles/apa.py:73 | with marker-free fields the book citation holds exactly two `ITALIC` tokens |
| Apa.BookDoiAppended | src/formatters/styles/apa.py:73-84 | the doi text is appended at the very end: the citation is the doi-less citation followed by the doi text |
| Apa.BookWithoutDoi | src/formatters/styles/apa.py:22-30 | without a doi the book citation ends in `. ` |
| Apa.BookIgnoresUnusedFields | src/formatters/styles/apa.py:79-85 | edition, city and pages never reach the APA book citation |
| Apa.FormatArticle | src/formatters/styles/apa.py:88-114 | the article template filled with `get_authors` as written (`Apa.FormatAuthorsAsWritten`), `None` for an absent journal title or number, and the doi text |
| Apa.ArticleFilled | src/formatters/styles/apa.py:98-114 | every slot of the article template has a value, and the filled pieces are the listed ones |
| Apa.ArticleMarkers | src/formatters/styles/apa.py:98 | with marker-free fields the article citation holds exactly two `ITALIC` tokens |
| Apa.ArticleDoiAppended | src/formatters/styles/apa.py:98-113 | the article citation is the doi-less citation followed by the doi text |
| Apa.ArticleWithoutDoi | src/formatters/styles/apa.py:22-30 | without a doi the article citation ends in `. ` |
| Apa.FormatInternetResource | src/formatters/styles/apa.py:117-137 | the internet-resource template filled with the fields as given |
| Apa.InternetResourceFilled | src/formatters/styles/apa.py:126-137 | every slot has a value, and the filled pieces are the listed ones |
| Apa.InternetResourceMarkers | src/formatters/styles/apa.py:126 | with marker-free fields the citation holds exactly two `ITALIC` tokens |
| Apa.FormatCollectionArticle | src/formatters/styles/apa.py:140-165 | the collection-article template filled with the authors as written (no rewriting) |
| Apa.CollectionArticleFilled | src/formatters/styles/apa.py:150-165 | every slot has a value, and the filled pieces are the listed ones |
| Apa.CollectionArticleMarkers | src/formatters/styles/apa.py:150 | with marker-free fields the citation holds exactly two `ITALIC` tokens |
| Apa.FormatDissertation | src/formatters/styles/apa.py:168-193 | the dissertation template filled with `get_authors` as written (`Apa.FormatAuthorsAsWritten`) |
| Apa.DissertationFilled | src/formatters/styles/apa.py:178-193 | every slot has a value, and the filled pieces are the listed ones |
| Apa.DissertationMarkers | src/formatters/styles/apa.py:178 | with marker-free fields the dissertation citation holds no `ITALIC` token |
| Gost.EditionText | src/formatters/styles/gost.py:51-58 | the edition text is empty exactly when the edition is absent or empty; otherwise it is the edition followed by ` изд. – ` |
| Gost.EditionInserted | src/formatters/styles/gost.py:34-58 | a non-empty edition inserts exactly `<edition> изд. – ` somewhere into the citation the book has without an edition |
| Gost.EmptyEditionIsAbsent | src/formatters/styles/gost.py:58 | an empty edition is written exactly like a missing one |
| Gost.BookIgnoresDoi | src/formatters/styles/gost.py:41-49 | the doi never reaches the GOST book citation |
| Gost.FormatBook | src/formatters/styles/gost.py:24-49 | the GOST book template filled with the fields as given and the edition text |
| Gost.BookFilled | src/formatters/styles/gost.py:34-49 | every slot has a value, and the filled pieces are the listed ones |
| Gost.BookMarkers | src/formatters/styles/gost.py:34 | with marker-free fields the GOST book citation holds no `ITALIC` token |
| Gost.FormatInternetResource | src/formatters/styles/gost.py:61-83 | the GOST internet-resource template filled with the fields as given |
| Gost.InternetResourceFilled | src/formatters/styles/gost.py:71-83 | every slot has a value, and the filled pieces are the listed ones |
| Gost.InternetResourceMarkers | src/formatters/styles/gost.py:71 | with marker-free fields the citation holds no `ITALIC` token |
| Gost.FormatCollectionArticle | src/formatters/styles/gost.py:86-111 | the GOST collection-article template filled with the fields as given |
| Gost.CollectionArticleFilled | src/formatters/styles/gost.py:96-111 | every slot has a value, and the filled pieces are the listed ones |
| Gost.CollectionArticleMarkers | src/formatters/styles/gost.py:96 | with marker-free fields the citation holds no `ITALIC` token |
| Gost.FormatDissertation | src/formatters/styles/gost.py:114-140 | the GOST dissertation template filled with the fields as given |
| Gost.DissertationFilled | src/formatters/styles/gost.py:125-140 | every slot has a value, and the filled pieces are the listed ones |
| Gost.DissertationMarkers | src/formatters/styles/gost.py:125 | with marker-free fields the citation holds no `ITALIC` token |
| Gost.FormatArticle | src/formatters/styles/gost.py:143-167 | the GOST article template filled with the fields as given, `None` for an absent journal title or number |
| Gost.ArticleFilled | src/formatters/styles/gost.py:154-167 | every slot has a value, and the filled pieces are the listed ones |
| Gost.ArticleMarkers | src/formatters/styles/gost.py:154 | with marker-free fields the citation holds no `ITALIC` token |
| Gost.ArticleIgnoresDoi | src/formatters/styles/gost.py:160-167 | the doi never reaches the GOST article citation |
| Ordering.LessEqReflexive | src/formatters/styles/apa.py:227 | the string order used as sort key is reflexive |
| Ordering.LessEqTotal | src/formatters/styles/apa.py:227 | any two strings are comparable |
| Ordering.LessEqAntisymmetric | src/formatters/styles/apa.py:227 | strings ordered both ways are equal |
| Ordering.LessEqTransitive | src/formatters/styles/apa.py:227 | the order is transitive |
| Ordering.LessEqMeansPrefixOrSmaller | src/formatters/styles/apa.py:227 | `a <= b` exactly when `a` is a prefix of `b` or, at the first difference, `a` has the smaller code point |
| StableSort.InsertSorted | src/formatters/styles/apa.py:227 | inserting into a sorted sequence keeps it sorted |
| StableSort.SortBy | src/formatters/styles/apa.py:227 | the result has the input's length and is sorted by key |
| StableSort.SortByPermutes | src/formatters/styles/apa.py:227 | the result is a rearrangement of the input |
| StableSort.SortByStable | src/formatters/styles/apa.py:227 | elements with equal keys keep their input order |
| StableSort.SortBySortedIsIdentity | src/formatters/styles/apa.py:227 | a sorted sequence is returned unchanged |
| StableSort.SortedPermutationUnique | src/formatters/styles/apa.py:227 | a sorted rearrangement of a sequence with strictly increasing keys is that sequence |
| Citations.Formatted | src/formatters/styles/apa.py:201-207 | each style's map sends every record kind to its own class: the formatted text is that class's citation of the record, for all five kinds in both styles |
| Citations.Build | src/formatters/styles/apa.py:209-219 | one formatter per record, in input order, each bound to the given style and its record |
| Citations.Format | src/formatters/styles/apa.py:221-227 | `format()` returns a rearrangement of the formatters, sorted by formatted text, with equal texts kept in input order |
| Citations.FormatIdempotent | src/formatters/styles/gost.py:195-201 | formatting an already formatted list changes nothing |
| Citations.FormatUnique | src/formatters/styles/apa.py:221-227 | when the texts of some arrangement strictly increase, `format()` returns exactly that arrangement, whatever the input order |
| Citations.FormattedMarkers | src/renderer.py:49-53 | with marker-free fields a formatted text holds exactly two `ITALIC` tokens (APA except the dissertation) or none, the shape the document writer splits on |
| Fixtures.BookCitation | src/tests/formatters/test_apa.py:27-40 | the APA book citation of the test's book record is the expected text |
| Fixtures.ArticleCitation | src/tests/formatters/test_apa.py:42-55 | the APA article citation of the test's article record is the expected text |
| Fixtures.DissertationCitation | src/tests/formatters/test_apa.py:57-69 | the APA dissertation citation of the test's dissertation record is the expected text |
| Fixtures.InternetResourceCitation | src/tests/formatters/test_apa.py:71-86 | the APA internet-resource citation of the test's record is the expected text |
| Fixtures.CollectionArticleCitation | src/tests/formatters/test_apa.py:88-104 | the APA collection-article citation of the test's record is the expected text |
| Fixtures.GostArticleCitation | src/formatters/styles/gost.py:143-147 | the documented GOST article example is what the article template produces |
| Fixtures.ResourceBeforeDissertation | src/tests/formatters/test_apa.py:134-135 | a citation led by a website whose first letter is smaller sorts before one led by the author |
| Fixtures.DissertationBeforeBook | src/tests/formatters/test_apa.py:135-136 | a lone author followed by ` (` sorts before the same author followed by `, & ` and a second author |
| Fixtures.BookBeforeArticle | src/tests/formatters/test_apa.py:136-137 | book and article by the same authors and year: the book's `ITALIC` sorts before the article's title |
| Fixtures.ArticleBeforeCollection | src/tests/formatters/test_apa.py:137-138 | the article's `, & ` sorts before the collection's authors as written |
| Fixtures.FixtureShapeOrder | src/tests/formatters/test_apa.py:106-138 | for any records shaped like the fixtures, `format()` puts the five citations in the order resource, dissertation, book, article, collection |
| Fixtures.FixtureOrder | src/tests/formatters/test_apa.py:124-138 | the list test: the fixture records come out in the order the test asserts |

## Left out

- Logging calls and the `formatted` property cache of the base class are left
  out. `formatters/base.py` and `formatters/styles/base.py` are not part of this
  model. `formatted` is taken to be the class's `substitute()`.
- The document writer (`renderer.py`) is not modelled. Only the `ITALIC`
  shape it relies on is stated.
- Pydantic coercion (strings to numbers and the like) is not modelled. Records
  hold typed values, and validation is the positivity check only.
- The class-map lookup cannot miss: every record kind has an entry in both maps,
  so `Formatter` binds a style to a record directly. Python's `None(...)` call
  on an unknown model type is not modelled.
- Templates are kept in parsed form, as piece lists. The parser for
  `$name` placeholders is not modelled.
- `sorted` is modelled as a stable insertion sort. Only its observable result
  (order, permutation, stability) corresponds to Python's Timsort.
- Fixtures.BookCitation: the expected texts are stated as concatenations of
  their pieces, not as single literals. The test strings are recovered by
  joining them.
- Fixtures.ArticleCitation: stated piecewise, as above.
- Fixtures.DissertationCitation: stated piecewise, as above.
- Fixtures.InternetResourceCitation: stated piecewise, as above.
- Fixtures.CollectionArticleCitation: stated piecewise, as above.
- Fixtures.GostArticleCitation: stated piecewise, as above.
- The docstring example of `GOSTDissertation` (gost.py:117) does not match the
  template. It puts the degree after the ellipsis and sets the city off with
  ` / `. It is documentation, not behaviour, and is not stated.
- Apa.AuthorsTruncated: keeps the code's constant of eighteen leading authors.
  The APA 7th edition rule lists nineteen before the ellipsis.

## Findings

| source | as written | input that shows it | evidently intended | confidence | as-written member | corrected member |
|---|---|---|---|---|---|---|
| src/formatters/styles/apa.py:47-55 | `del authors[:-1]` removes every author but the last, so `del authors[18:]` has nothing to cut and the result is `L, ... L` | the 21 authors `a,b,…,u` give `u, ... u` | keep the leading authors, cut after the eighteenth, then `... ` and the last author, as the comment at line 46 says | not executed | Apa.AuthorsAsWrittenDropsLeading | Apa.AuthorsTruncated |

The formatters follow the code: the APA book, article and dissertation
citations are filled with `Apa.FormatAuthorsAsWritten`, so above twenty authors
they begin with `L, ... L`. The corrected rule, `Apa.FormatAuthors`, keeps the
code's own constant of eighteen (`del authors[18:]`) and is stated and proved on
its own; it agrees with the code up to twenty authors (`Apa.AuthorsAgreeUpToTwenty`).
