/** src/config/seedOpenLibrary.js: the publication-year filter applied to
    every fetched page, the mapping of an Open Library search document to a
    catalogue record, and the seeding loop that stores each kept document
    unless its file URL is already stored. The HTTP fetches are not
    modelled: their `docs` arrays are the parameter `pages`. */
module SeedOpenLibrary {
  import opened Wrappers
  import opened Text
  import opened Seqs
  import opened BookModel
  import opened SeedCommon

  /** `first_sentence`: absent, an array of sentences, or one string. */
  datatype FirstSentence = NoSentence | Sentences(parts: seq<string>) | Sentence(text: string)

  /** A search document as the mapper reads it. An absent `cover_i` or
      `first_publish_year` is None. */
  datatype OpenLibraryDoc = OpenLibraryDoc(
    key: string, title: string, authorName: Option<seq<string>>,
    firstSentence: FirstSentence, coverId: Option<nat>,
    subject: Option<seq<string>>, firstPublishYear: Option<int>)

  const MIN_YEAR := 2024
  const MAX_TAGS := 5
  const SITE_URL := "https://openlibrary.org"
  const COVERS_URL := "https://covers.openlibrary.org/b/id/"
  const COVER_SUFFIX := "-M.jpg"
  const UNKNOWN_AUTHOR := "Unknown"
  const TOPICS := ["programming", "literature", "science", "history", "philosophy"]
  const PAGES_PER_TOPIC := 2

  /** `book.first_publish_year && book.first_publish_year >= minYear`: an
      absent year and the year 0 are falsy. */
  function KeepsYear(minYear: int): (keep: OpenLibraryDoc -> bool)
    ensures forall d: OpenLibraryDoc :: keep(d) ==> d.firstPublishYear.Some? && d.firstPublishYear.value >= minYear
    ensures minYear > 0 ==> forall d: OpenLibraryDoc :: keep(d) <==> d.firstPublishYear.Some? && d.firstPublishYear.value >= minYear
    ensures forall d: OpenLibraryDoc :: d.firstPublishYear == Some(0) ==> !keep(d)
  {
    (d: OpenLibraryDoc) => d.firstPublishYear.Some? && d.firstPublishYear.value != 0 && d.firstPublishYear.value >= minYear
  }

  /** The filter fetchOpenLibraryBooks applies to the fetched `docs`. */
  function FetchFilter(docs: seq<OpenLibraryDoc>, minYear: int): (r: seq<OpenLibraryDoc>)
    ensures forall i :: 0 <= i < |r| ==> r[i] in docs
    ensures forall i :: 0 <= i < |r| ==>
      r[i].firstPublishYear.Some? && r[i].firstPublishYear.value != 0 && r[i].firstPublishYear.value >= minYear
    ensures forall i :: 0 <= i < |docs| && KeepsYear(minYear)(docs[i]) ==> docs[i] in r
  {
    Filter(docs, KeepsYear(minYear))
  }

  /** With the default minimum year, a fetched document is kept exactly when
      it has a publication year of at least 2024. */
  lemma YearFilterDefault(docs: seq<OpenLibraryDoc>, d: OpenLibraryDoc)
    requires d in docs
    ensures d in FetchFilter(docs, MIN_YEAR) <==> d.firstPublishYear.Some? && d.firstPublishYear.value >= MIN_YEAR
  {
    var r := FetchFilter(docs, MIN_YEAR);
    if d in r {
      var i :| 0 <= i < |r| && r[i] == d;
    }
  }

  /** The description: an array of sentences joined by spaces (an empty
      array is truthy and gives ""), a non-empty string as is, otherwise the
      fallback text. */
  function Description(fs: FirstSentence): (r: string)
    ensures fs.NoSentence? || fs == Sentence("") ==> r == NO_DESCRIPTION
    ensures fs.Sentence? && fs.text != "" ==> r == fs.text
    ensures fs.Sentences? ==> r == Join(fs.parts, " ") && (r == "" <==> fs.parts == [] || fs.parts == [""])
  {
    match fs
    case NoSentence => NO_DESCRIPTION
    case Sentences(parts) => JoinIsEmpty(parts, " "); Join(parts, " ")
    case Sentence(text) => if text != "" then text else NO_DESCRIPTION
  }

  /** The cover URL, null when `cover_i` is absent or 0. */
  function CoverUrl(coverId: Option<nat>): (r: Option<string>)
    ensures r.None? <==> coverId.None? || coverId.value == 0
  {
    if coverId.Some? && coverId.value != 0 then Some(COVERS_URL + NatToString(coverId.value) + COVER_SUFFIX)
    else None
  }

  /** The cover id can be read back from the cover URL. */
  lemma CoverUrlNamesCover(coverId: nat)
    requires coverId != 0
    ensures var u := CoverUrl(Some(coverId)).value;
      && |u| >= |COVERS_URL| + |COVER_SUFFIX|
      && u[..|COVERS_URL|] == COVERS_URL
      && u[|u| - |COVER_SUFFIX|..] == COVER_SUFFIX
      && ParseNat(u[|COVERS_URL|..|u| - |COVER_SUFFIX|]) == Some(coverId)
  {
    var u := CoverUrl(Some(coverId)).value;
    var digits := NatToString(coverId);
    assert u == COVERS_URL + digits + COVER_SUFFIX;
    assert u[|COVERS_URL|..|u| - |COVER_SUFFIX|] == digits;
    ParseNatToString(coverId);
  }

  /** mapToBookModel: always a record; file and download URL are the site
      address followed by the document key. */
  function MapToBookModel(d: OpenLibraryDoc): (r: SeedRecord)
    ensures r.fileUrl == SITE_URL + d.key && r.downloadUrl == r.fileUrl
    ensures r.title == d.title
    ensures d.authorName.None? ==> r.author == UNKNOWN_AUTHOR
    ensures d.authorName.Some? ==> r.author == Join(d.authorName.value, ", ")
    ensures r.description == Description(d.firstSentence)
    ensures r.coverUrl == CoverUrl(d.coverId)
    ensures d.subject.None? ==> r.tags == []
    ensures d.subject.Some? ==> |r.tags| == if |d.subject.value| < MAX_TAGS then |d.subject.value| else MAX_TAGS
    ensures d.subject.Some? ==> r.tags == d.subject.value[..|r.tags|]
    ensures !r.isPremium && r.source == "openlibrary"
  {
    var url := SITE_URL + d.key;
    SeedRecord(
      d.title,
      if d.authorName.Some? then Join(d.authorName.value, ", ") else UNKNOWN_AUTHOR,
      Description(d.firstSentence),
      url,
      CoverUrl(d.coverId),
      if d.subject.Some? then Take(d.subject.value, MAX_TAGS) else [],
      false, "openlibrary", url)
  }

  /** Two documents share a file URL exactly when they share a key, so the
      loop's duplicate check is a check on keys. */
  lemma FileUrlIdentifiesDoc(a: OpenLibraryDoc, b: OpenLibraryDoc)
    ensures MapToBookModel(a).fileUrl == MapToBookModel(b).fileUrl <==> a.key == b.key
  {
    var ua := MapToBookModel(a).fileUrl;
    var ub := MapToBookModel(b).fileUrl;
    if ua == ub {
      assert ua[|SITE_URL|..] == a.key;
      assert ub[|SITE_URL|..] == b.key;
    }
  }

  /** The description falls back to the fixed text only when there is no
      sentence or an empty one; a sentence array never does. The one way an
      array could produce that text is by joining to it letter for letter;
      the precondition excludes this by the simplest sufficient condition,
      that no part holds the text's first letter 'N'. It is a hypothesis
      of the proof, not something the seeder checks: an array whose parts
      do contain 'N' is still described by its joined parts. */
  lemma DescriptionFallback(fs: FirstSentence)
    requires fs.Sentences? ==> forall i :: 0 <= i < |fs.parts| ==> 'N' !in fs.parts[i]
    ensures Description(fs) == NO_DESCRIPTION <==> fs.NoSentence? || fs == Sentence("") || fs == Sentence(NO_DESCRIPTION)
  {
    if fs.Sentences? {
      JoinExcludes(fs.parts, " ", 'N');
      assert NO_DESCRIPTION[0] == 'N';
    }
  }

  /** The URL a kept document is stored under. Every document has one; it
      is wrapped in `Some` only to share the URL-set bookkeeping of
      SeedCommon with the Gutenberg seeder, where books without a readable
      format have none. */
  function DocUrl(d: OpenLibraryDoc): Option<string> {
    Some(SITE_URL + d.key)
  }

  /** The body of the loop for one kept document: skipped exactly when its
      file URL is already stored, otherwise stored as a new row. */
  method SeedDoc(table: BookTable, d: OpenLibraryDoc) returns (added: bool)
    requires table.Valid()
    modifies table
    ensures table.Valid()
    ensures added <==> DocUrl(d).value !in UrlsOf(old(table.rows))
    ensures !added ==> table.rows == old(table.rows)
    ensures added ==> |table.rows| == |old(table.rows)| + 1 && table.rows[..|old(table.rows)|] == old(table.rows)
    ensures added ==> var row := table.rows[|old(table.rows)|];
      row.id == old(table.nextId) && row.title == d.title && row.fileUrl == DocUrl(d).value
    ensures UrlsOf(table.rows) == UrlsOf(old(table.rows)) + {DocUrl(d).value}
  {
    var mapped := MapToBookModel(d);
    added := InsertIfAbsent(table, ToNewBook(mapped));
  }

  /** What one document does to the loop's bookkeeping: the URL set gains
      its URL, and the added count moves exactly when that URL was new. */
  lemma DocStep(docs: seq<OpenLibraryDoc>, k: nat, initial: set<string>, before: set<string>, after: set<string>, added: bool)
    requires k < |docs|
    requires before == initial + UrlsUpTo(docs, k, DocUrl)
    requires added <==> DocUrl(docs[k]).value !in before
    requires after == before + {DocUrl(docs[k]).value}
    ensures after == initial + UrlsUpTo(docs, k + 1, DocUrl)
    ensures NewUrlCount(docs, k + 1, DocUrl, initial) == NewUrlCount(docs, k, DocUrl, initial) + if added then 1 else 0
  {
  }

  /** The loop over the documents the year filter kept: each is counted
      once, as added or as skipped, and the catalogue gains exactly their
      file URLs. */
  method SeedDocs(table: BookTable, books: seq<OpenLibraryDoc>) returns (added: nat, skipped: nat)
    requires table.Valid()
    modifies table
    ensures table.Valid()
    ensures added + skipped == |books|
    ensures |table.rows| == |old(table.rows)| + added
    ensures table.rows[..|old(table.rows)|] == old(table.rows)
    ensures UrlsOf(table.rows) == UrlsOf(old(table.rows)) + UrlSet(books, DocUrl)
    ensures added == |UrlSet(books, DocUrl) - UrlsOf(old(table.rows))|
  {
    ghost var initial := UrlsOf(table.rows);
    added, skipped := 0, 0;
    var k := 0;
    while k < |books|
      invariant 0 <= k <= |books|
      invariant table.Valid()
      invariant added + skipped == k
      invariant |table.rows| == |old(table.rows)| + added
      invariant KeepsRows(old(table.rows), table.rows)
      invariant UrlsOf(table.rows) == initial + UrlsUpTo(books, k, DocUrl)
      invariant added == NewUrlCount(books, k, DocUrl, initial)
    {
      ghost var stored := UrlsOf(table.rows);
      ghost var rows := table.rows;
      var isNew := SeedDoc(table, books[k]);
      KeepsRowsTrans(old(table.rows), rows, table.rows);
      DocStep(books, k, initial, stored, UrlsOf(table.rows), isNew);
      if isNew {
        added := added + 1;
      } else {
        skipped := skipped + 1;
      }
      k := k + 1;
    }
    NewUrlCountIsCard(books, k, DocUrl, initial);
  }

  /** One fetched page: the year filter, then the loop over what it kept. */
  method SeedPage(table: BookTable, docs: seq<OpenLibraryDoc>) returns (added: nat, skipped: nat)
    requires table.Valid()
    modifies table
    ensures table.Valid()
    ensures added + skipped == |FetchFilter(docs, MIN_YEAR)|
    ensures |table.rows| == |old(table.rows)| + added
    ensures table.rows[..|old(table.rows)|] == old(table.rows)
    ensures UrlsOf(table.rows) == UrlsOf(old(table.rows)) + UrlSet(FetchFilter(docs, MIN_YEAR), DocUrl)
    ensures added == |UrlSet(FetchFilter(docs, MIN_YEAR), DocUrl) - UrlsOf(old(table.rows))|
  {
    var books := FetchFilter(docs, MIN_YEAR);
    added, skipped := SeedDocs(table, books);
  }

  /** What one page does to the outer loop's bookkeeping: the documents
      kept so far and the URL set extend by the page's, and the added count
      by the page's new URLs. */
  lemma PageStep(seen: seq<OpenLibraryDoc>, kept: seq<OpenLibraryDoc>, initial: set<string>,
                 before: set<string>, after: set<string>, added: nat, a: nat)
    requires before == initial + UrlSet(seen, DocUrl)
    requires added == |UrlSet(seen, DocUrl) - initial|
    requires after == before + UrlSet(kept, DocUrl)
    requires a == |UrlSet(kept, DocUrl) - before|
    ensures after == initial + UrlSet(seen + kept, DocUrl)
    ensures added + a == |UrlSet(seen + kept, DocUrl) - initial|
  {
    UrlSetAppend(seen, kept, DocUrl);
    NewUrlsAppend(initial, UrlSet(seen, DocUrl), UrlSet(kept, DocUrl));
  }

  /** seedBooksFromOpenLibrary. `pages[PAGES_PER_TOPIC * t + p - 1]` is the
      `docs` array the fetch of topic `TOPICS[t]`, page p returned ([] when
      it failed). Every document kept by the year filter is counted once;
      the catalogue gains exactly their file URLs, the added count is the
      number of those URLs that were new, and unique URLs stay unique. */
  method SeedBooksFromOpenLibrary(table: BookTable, pages: seq<seq<OpenLibraryDoc>>) returns (added: nat, skipped: nat)
    requires |pages| == |TOPICS| * PAGES_PER_TOPIC
    requires table.Valid()
    modifies table
    ensures table.Valid()
    ensures added + skipped == |FetchFilter(Flatten(pages), MIN_YEAR)|
    ensures |table.rows| == |old(table.rows)| + added
    ensures table.rows[..|old(table.rows)|] == old(table.rows)
    ensures UrlsOf(table.rows) == UrlsOf(old(table.rows)) + UrlSet(FetchFilter(Flatten(pages), MIN_YEAR), DocUrl)
    ensures UrlsUnique(old(table.rows)) ==> UrlsUnique(table.rows)
    ensures added == |UrlSet(FetchFilter(Flatten(pages), MIN_YEAR), DocUrl) - UrlsOf(old(table.rows))|
  {
    ghost var before := table.rows;
    ghost var initial := UrlsOf(before);
    ghost var seen: seq<OpenLibraryDoc> := [];
    added, skipped := 0, 0;
    var p := 0;
    while p < |pages|
      invariant 0 <= p <= |pages|
      invariant seen == FetchFilter(Flatten(pages[..p]), MIN_YEAR)
      invariant table.Valid()
      invariant added + skipped == |seen|
      invariant |table.rows| == |before| + added
      invariant KeepsRows(before, table.rows)
      invariant UrlsOf(table.rows) == initial + UrlSet(seen, DocUrl)
      invariant added == |UrlSet(seen, DocUrl) - initial|
    {
      FlattenSnoc(pages, p);
      FilterAppend(Flatten(pages[..p]), pages[p], KeepsYear(MIN_YEAR));
      var kept := FetchFilter(pages[p], MIN_YEAR);
      ghost var stored := UrlsOf(table.rows);
      ghost var rows := table.rows;
      var a, s := SeedPage(table, pages[p]);
      KeepsRowsTrans(before, rows, table.rows);
      PageStep(seen, kept, initial, stored, UrlsOf(table.rows), added, a);
      added, skipped := added + a, skipped + s;
      seen := seen + kept;
      p := p + 1;
    }
    assert pages[..p] == pages;
    SeedingKeepsUrlsUnique(before, table.rows, UrlSet(seen, DocUrl), added);
  }
}
