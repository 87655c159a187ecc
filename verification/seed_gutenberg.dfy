/** src/config/seedGutenberg.js: the mapping of a Gutendex result to a
    catalogue record, and the seeding loop that classifies every fetched
    book as skipped for want of a readable format, skipped as already
    stored, or added. The HTTP fetches are not modelled: their results are
    the parameter `pages`. */
module SeedGutenberg {
  import opened Wrappers
  import opened Text
  import opened Seqs
  import opened BookModel
  import opened SeedCommon

  /** A Gutendex result as the mapper reads it: `subjects` is None when it
      is not an array, `formats` maps a MIME type to a URL, `authors` holds
      the authors' `name`s. */
  datatype GutenbergBook = GutenbergBook(
    id: nat, title: string, authors: seq<string>,
    subjects: Option<seq<string>>, formats: map<string, string>)

  const EPUB := "application/epub+zip"
  const HTML := "text/html"
  const JPEG := "image/jpeg"
  const EBOOKS_URL := "https://www.gutenberg.org/ebooks/"
  const MAX_TAGS := 8
  const TOPICS := ["literature", "science", "history", "philosophy", "technology"]
  const PAGES_PER_TOPIC := 2

  /** `book.formats[mime]` as a truthy value: a missing key and an empty URL
      are both falsy. */
  function Format(formats: map<string, string>, mime: string): (r: Option<string>)
    ensures r.Some? ==> mime in formats && r.value == formats[mime] && r.value != ""
    ensures r.None? ==> mime !in formats || formats[mime] == ""
  {
    if mime in formats && formats[mime] != "" then Some(formats[mime]) else None
  }

  /** `t.trim().toLowerCase()`. */
  function CleanTag(t: string): (r: string)
    ensures forall i :: 0 <= i < |r| ==> !IsUpper(r[i])
  {
    ToLower(Trim(t))
  }

  function CleanTags(subjects: seq<string>): (r: seq<string>)
    ensures |r| == |subjects|
    ensures forall i :: 0 <= i < |r| ==> r[i] == CleanTag(subjects[i])
  {
    seq(|subjects|, i requires 0 <= i < |subjects| => CleanTag(subjects[i]))
  }

  /** The tags: the subjects trimmed and lower-cased, each once, at most
      eight; none when `subjects` is not an array. */
  function Tags(subjects: Option<seq<string>>): (r: seq<string>)
    ensures subjects.None? ==> r == []
    ensures |r| <= MAX_TAGS
    ensures forall i, j :: 0 <= i < j < |r| ==> r[i] != r[j]
    ensures subjects.Some? ==> forall i :: 0 <= i < |r| ==> r[i] in CleanTags(subjects.value)
    ensures forall i, k :: 0 <= i < |r| && 0 <= k < |r[i]| ==> !IsUpper(r[i][k])
  {
    match subjects
    case None => []
    case Some(s) =>
      var r := Take(Dedupe(CleanTags(s)), MAX_TAGS);
      assert forall i :: 0 <= i < |r| ==> r[i] in CleanTags(s);
      r
  }

  /** The tags come in the order of their first occurrence among the cleaned
      subjects; when fewer than eight are kept, every subject is among them;
      and a subject left out comes after all eight kept tags, so the kept
      ones are the first eight distinct values. */
  lemma TagsAreFirstOccurrences(subjects: seq<string>)
    ensures var r := Tags(Some(subjects));
      && (forall i, j :: 0 <= i < j < |r| ==> IndexOf(CleanTags(subjects), r[i]) < IndexOf(CleanTags(subjects), r[j]))
      && (|r| < MAX_TAGS ==> forall k :: 0 <= k < |subjects| ==> CleanTag(subjects[k]) in r)
      && (forall k :: 0 <= k < |subjects| && CleanTag(subjects[k]) !in r ==>
            |r| == MAX_TAGS && forall i :: 0 <= i < |r| ==> IndexOf(CleanTags(subjects), r[i]) < k)
  {
    var c := CleanTags(subjects);
    var d := Dedupe(c);
    DedupeKeepsFirstOccurrenceOrder(c);
    var r := Tags(Some(subjects));
    assert r == d[..|r|];
    if |r| < MAX_TAGS {
      assert r == d;
      forall k | 0 <= k < |subjects| ensures CleanTag(subjects[k]) in r {
        assert c[k] in c;
      }
    }
    TagsKeepFirstEight(subjects);
  }

  /** A subject whose tag is left out first occurs after all eight kept tags. */
  lemma TagsKeepFirstEight(subjects: seq<string>)
    ensures var r := Tags(Some(subjects));
      forall k :: 0 <= k < |subjects| && CleanTag(subjects[k]) !in r ==>
        |r| == MAX_TAGS && forall i :: 0 <= i < |r| ==> IndexOf(CleanTags(subjects), r[i]) < k
  {
    var c := CleanTags(subjects);
    var r := Tags(Some(subjects));
    forall k | 0 <= k < |subjects| && CleanTag(subjects[k]) !in r
      ensures |r| == MAX_TAGS && forall i :: 0 <= i < |r| ==> IndexOf(c, r[i]) < k
    {
      assert c[k] in c;
      TakeDedupeLeavesLater(c, MAX_TAGS, c[k]);
    }
  }

  /** `tags.join(", ") || "No description available."`: never empty, and
      the joined tags whenever there is a non-empty one to join. */
  function Description(tags: seq<string>): (r: string)
    ensures r != ""
    ensures tags != [] && tags != [""] ==> r == Join(tags, ", ")
    ensures tags == [] || tags == [""] ==> r == NO_DESCRIPTION
  {
    JoinIsEmpty(tags, ", ");
    var joined := Join(tags, ", ");
    if joined != "" then joined else NO_DESCRIPTION
  }

  /** The description is the fallback text exactly when there are no tags,
      or the one tag is empty: lower-cased tags never spell the capitalised
      fallback. */
  lemma DescriptionFallback(subjects: Option<seq<string>>)
    ensures var tags := Tags(subjects);
      Description(tags) == NO_DESCRIPTION <==> tags == [] || tags == [""]
  {
    var tags := Tags(subjects);
    JoinIsEmpty(tags, ", ");
    JoinExcludes(tags, ", ", 'N');
    assert NO_DESCRIPTION[0] == 'N';
  }

  /** mapToBookModel: null when the book has neither an EPUB nor an HTML
      URL; otherwise a free record whose download URL prefers EPUB. */
  function MapToBookModel(book: GutenbergBook): (r: Option<SeedRecord>)
    ensures r.None? <==> Format(book.formats, EPUB).None? && Format(book.formats, HTML).None?
    ensures r.Some? && Format(book.formats, EPUB).Some? ==> r.value.downloadUrl == book.formats[EPUB]
    ensures r.Some? && Format(book.formats, EPUB).None? ==> r.value.downloadUrl == book.formats[HTML]
    ensures r.Some? ==> r.value.downloadUrl != ""
    ensures r.Some? ==>
      && r.value.title == book.title
      && r.value.author == Join(book.authors, ", ")
      && r.value.tags == Tags(book.subjects)
      && r.value.description == Description(r.value.tags)
      && r.value.fileUrl == EBOOKS_URL + NatToString(book.id)
      && r.value.coverUrl == Format(book.formats, JPEG)
      && !r.value.isPremium
      && r.value.source == "gutenberg"
  {
    var epub := Format(book.formats, EPUB);
    var html := Format(book.formats, HTML);
    if epub.None? && html.None? then None
    else
      var downloadUrl := if epub.Some? then epub.value else html.value;
      var tags := Tags(book.subjects);
      Some(SeedRecord(
        book.title, Join(book.authors, ", "), Description(tags),
        EBOOKS_URL + NatToString(book.id), Format(book.formats, JPEG),
        tags, false, "gutenberg", downloadUrl))
  }

  /** Two mapped books share a file URL only when they share a Gutenberg id,
      so the loop's duplicate check is a check on ids. */
  lemma FileUrlIdentifiesBook(a: GutenbergBook, b: GutenbergBook)
    requires !Unmappable(a) && !Unmappable(b)
    ensures MapToBookModel(a).value.fileUrl == MapToBookModel(b).value.fileUrl <==> a.id == b.id
  {
    var ua := MapToBookModel(a).value.fileUrl;
    var ub := MapToBookModel(b).value.fileUrl;
    if ua == ub {
      assert ua[|EBOOKS_URL|..] == NatToString(a.id);
      assert ub[|EBOOKS_URL|..] == NatToString(b.id);
      ParseNatToString(a.id);
      ParseNatToString(b.id);
    }
  }

  /** A book without an EPUB or HTML URL. */
  function Unmappable(book: GutenbergBook): bool {
    Format(book.formats, EPUB).None? && Format(book.formats, HTML).None?
  }

  /** The URL a book is stored under, None when it has no readable format. */
  function SeededUrl(book: GutenbergBook): Option<string> {
    if Unmappable(book) then None else Some(EBOOKS_URL + NatToString(book.id))
  }

  /** SeededUrl agrees with the mapper: None exactly when the mapper skips
      the book, and otherwise the file URL of its record. */
  lemma SeededUrlIsFileUrl(book: GutenbergBook)
    ensures SeededUrl(book).None? <==> MapToBookModel(book).None?
    ensures SeededUrl(book).Some? ==> SeededUrl(book).value == MapToBookModel(book).value.fileUrl
  {
  }

  /** The three ways the loop can count a book. */
  datatype Tally = FormatSkipped | Skipped | Added

  /** The body of the loop for one book: counted as format-skipped exactly
      when it has no readable format, as skipped exactly when its file URL
      is already stored, and otherwise stored as a new row. */
  method SeedBook(table: BookTable, book: GutenbergBook) returns (t: Tally)
    requires table.Valid()
    modifies table
    ensures table.Valid()
    ensures t == FormatSkipped <==> Unmappable(book)
    ensures t == Skipped <==> !Unmappable(book) && SeededUrl(book).value in UrlsOf(old(table.rows))
    ensures t != Added ==> table.rows == old(table.rows)
    ensures t == Added ==> |table.rows| == |old(table.rows)| + 1 && table.rows[..|old(table.rows)|] == old(table.rows)
    ensures t == Added ==> var row := table.rows[|old(table.rows)|];
      row.id == old(table.nextId) && row.title == book.title && row.fileUrl == SeededUrl(book).value
    ensures Unmappable(book) ==> UrlsOf(table.rows) == UrlsOf(old(table.rows))
    ensures !Unmappable(book) ==> UrlsOf(table.rows) == UrlsOf(old(table.rows)) + {SeededUrl(book).value}
  {
    var mapped := MapToBookModel(book);
    SeededUrlIsFileUrl(book);
    if mapped.None? {
      t := FormatSkipped;
    } else {
      var isNew := InsertIfAbsent(table, ToNewBook(mapped.value));
      t := if isNew then Added else Skipped;
    }
  }

  /** How many of the books have no readable format: what the loops count
      as format-skipped. */
  ghost function UnmappableCount(books: seq<GutenbergBook>): nat {
    if books == [] then 0
    else UnmappableCount(books[..|books| - 1]) + if Unmappable(books[|books| - 1]) then 1 else 0
  }

  lemma UnmappableCountSnoc(books: seq<GutenbergBook>, k: nat)
    requires k < |books|
    ensures UnmappableCount(books[..k + 1]) == UnmappableCount(books[..k]) + if Unmappable(books[k]) then 1 else 0
  {
    assert books[..k + 1][..k] == books[..k];
  }

  /** The count over two runs of books is the sum of their counts. */
  lemma {:induction false} UnmappableCountAppend(a: seq<GutenbergBook>, b: seq<GutenbergBook>)
    ensures UnmappableCount(a + b) == UnmappableCount(a) + UnmappableCount(b)
    decreases |b|
  {
    if b == [] {
      assert a + b == a;
    } else {
      var init := b[..|b| - 1];
      UnmappableCountAppend(a, init);
      assert (a + b)[..|a + b| - 1] == a + init;
    }
  }

  /** The count is at most the number of books, and reaches it exactly
      when no book has a readable format. */
  lemma {:induction false} UnmappableCountBounds(books: seq<GutenbergBook>)
    ensures UnmappableCount(books) <= |books|
    ensures UnmappableCount(books) == |books| <==> forall i :: 0 <= i < |books| ==> Unmappable(books[i])
  {
    if books != [] {
      var init := books[..|books| - 1];
      UnmappableCountBounds(init);
      if forall i :: 0 <= i < |books| ==> Unmappable(books[i]) {
        assert forall i :: 0 <= i < |init| ==> Unmappable(init[i]) by {
          forall i | 0 <= i < |init| ensures Unmappable(init[i]) {
            assert init[i] == books[i];
          }
        }
      } else if UnmappableCount(books) == |books| {
        assert forall i :: 0 <= i < |init| ==> Unmappable(init[i]);
        assert Unmappable(books[|books| - 1]);
        forall i | 0 <= i < |books| ensures Unmappable(books[i]) {
          if i < |init| {
            assert init[i] == books[i];
          }
        }
      }
    }
  }

  /** What one book does to the loop's bookkeeping: the URL set gains its
      URL, and the format-skipped and added counts move exactly when the
      book is counted that way. */
  lemma TallyStep(books: seq<GutenbergBook>, k: nat, initial: set<string>, before: set<string>, after: set<string>, t: Tally)
    requires k < |books|
    requires before == initial + UrlsUpTo(books, k, SeededUrl)
    requires t == FormatSkipped <==> Unmappable(books[k])
    requires t == Skipped <==> !Unmappable(books[k]) && SeededUrl(books[k]).value in before
    requires Unmappable(books[k]) ==> after == before
    requires !Unmappable(books[k]) ==> after == before + {SeededUrl(books[k]).value}
    ensures after == initial + UrlsUpTo(books, k + 1, SeededUrl)
    ensures UnmappableCount(books[..k + 1]) == UnmappableCount(books[..k]) + if t == FormatSkipped then 1 else 0
    ensures NewUrlCount(books, k + 1, SeededUrl, initial) == NewUrlCount(books, k, SeededUrl, initial) + if t == Added then 1 else 0
  {
    UnmappableCountSnoc(books, k);
  }

  /** The loop over one fetched page: each book increments exactly one
      counter, books without a format are never stored, and a file URL is
      stored only when the catalogue lacks it. */
  method SeedPage(table: BookTable, books: seq<GutenbergBook>) returns (added: nat, skipped: nat, formatSkipped: nat)
    requires table.Valid()
    modifies table
    ensures table.Valid()
    ensures added + skipped + formatSkipped == |books|
    ensures formatSkipped == UnmappableCount(books)
    ensures |table.rows| == |old(table.rows)| + added
    ensures table.rows[..|old(table.rows)|] == old(table.rows)
    ensures UrlsOf(table.rows) == UrlsOf(old(table.rows)) + UrlSet(books, SeededUrl)
    ensures added == |UrlSet(books, SeededUrl) - UrlsOf(old(table.rows))|
  {
    ghost var initial := UrlsOf(table.rows);
    added, skipped, formatSkipped := 0, 0, 0;
    var k := 0;
    while k < |books|
      invariant 0 <= k <= |books|
      invariant table.Valid()
      invariant added + skipped + formatSkipped == k
      invariant formatSkipped == UnmappableCount(books[..k])
      invariant |table.rows| == |old(table.rows)| + added
      invariant KeepsRows(old(table.rows), table.rows)
      invariant UrlsOf(table.rows) == initial + UrlsUpTo(books, k, SeededUrl)
      invariant added == NewUrlCount(books, k, SeededUrl, initial)
    {
      ghost var stored := UrlsOf(table.rows);
      ghost var rows := table.rows;
      var t := SeedBook(table, books[k]);
      KeepsRowsTrans(old(table.rows), rows, table.rows);
      TallyStep(books, k, initial, stored, UrlsOf(table.rows), t);
      match t {
        case FormatSkipped => formatSkipped := formatSkipped + 1;
        case Skipped => skipped := skipped + 1;
        case Added => added := added + 1;
      }
      k := k + 1;
    }
    assert books[..k] == books;
    NewUrlCountIsCard(books, k, SeededUrl, initial);
  }

  /** What one page does to the outer loop's bookkeeping: the books seen so
      far, the URL set and the counts all extend by the page's. */
  lemma PageStep(seen: seq<GutenbergBook>, page: seq<GutenbergBook>, initial: set<string>,
                 before: set<string>, after: set<string>, added: nat, a: nat)
    requires before == initial + UrlSet(seen, SeededUrl)
    requires added == |UrlSet(seen, SeededUrl) - initial|
    requires after == before + UrlSet(page, SeededUrl)
    requires a == |UrlSet(page, SeededUrl) - before|
    ensures after == initial + UrlSet(seen + page, SeededUrl)
    ensures added + a == |UrlSet(seen + page, SeededUrl) - initial|
    ensures UnmappableCount(seen + page) == UnmappableCount(seen) + UnmappableCount(page)
  {
    UnmappableCountAppend(seen, page);
    UrlSetAppend(seen, page, SeededUrl);
    NewUrlsAppend(initial, UrlSet(seen, SeededUrl), UrlSet(page, SeededUrl));
  }

  /** One turn of the page loop: seeds `page` after the books `seen` so far
      and carries the counters and the catalogue from `seen` to `seen + page`. */
  method SeedNextPage(table: BookTable, page: seq<GutenbergBook>, ghost before: seq<Book>, ghost seen: seq<GutenbergBook>,
                      added: nat, skipped: nat, formatSkipped: nat)
    returns (added': nat, skipped': nat, formatSkipped': nat)
    requires table.Valid()
    requires added + skipped + formatSkipped == |seen|
    requires formatSkipped == UnmappableCount(seen)
    requires |table.rows| == |before| + added && KeepsRows(before, table.rows)
    requires UrlsOf(table.rows) == UrlsOf(before) + UrlSet(seen, SeededUrl)
    requires added == |UrlSet(seen, SeededUrl) - UrlsOf(before)|
    modifies table
    ensures table.Valid()
    ensures added' + skipped' + formatSkipped' == |seen + page|
    ensures formatSkipped' == UnmappableCount(seen + page)
    ensures |table.rows| == |before| + added' && KeepsRows(before, table.rows)
    ensures UrlsOf(table.rows) == UrlsOf(before) + UrlSet(seen + page, SeededUrl)
    ensures added' == |UrlSet(seen + page, SeededUrl) - UrlsOf(before)|
  {
    ghost var stored := UrlsOf(table.rows);
    ghost var rows := table.rows;
    var a, s, f := SeedPage(table, page);
    KeepsRowsTrans(before, rows, table.rows);
    PageStep(seen, page, UrlsOf(before), stored, UrlsOf(table.rows), added, a);
    added', skipped', formatSkipped' := added + a, skipped + s, formatSkipped + f;
  }

  /** seedBooksFromGutenberg. `pages[PAGES_PER_TOPIC * t + p - 1]` is what the
      fetch of topic `TOPICS[t]`, page p returned ([] when it failed). Every
      fetched book is counted once; the catalogue gains exactly the file URLs
      of the books with a readable format, the added count is the number of
      those URLs that were new, and unique URLs stay unique. */
  method SeedBooksFromGutenberg(table: BookTable, pages: seq<seq<GutenbergBook>>)
    returns (added: nat, skipped: nat, formatSkipped: nat)
    requires |pages| == |TOPICS| * PAGES_PER_TOPIC
    requires table.Valid()
    modifies table
    ensures table.Valid()
    ensures added + skipped + formatSkipped == |Flatten(pages)|
    ensures formatSkipped == UnmappableCount(Flatten(pages))
    ensures |table.rows| == |old(table.rows)| + added
    ensures table.rows[..|old(table.rows)|] == old(table.rows)
    ensures UrlsOf(table.rows) == UrlsOf(old(table.rows)) + UrlSet(Flatten(pages), SeededUrl)
    ensures UrlsUnique(old(table.rows)) ==> UrlsUnique(table.rows)
    ensures added == |UrlSet(Flatten(pages), SeededUrl) - UrlsOf(old(table.rows))|
  {
    ghost var before := table.rows;
    ghost var initial := UrlsOf(before);
    ghost var seen: seq<GutenbergBook> := [];
    added, skipped, formatSkipped := 0, 0, 0;
    var p := 0;
    while p < |pages|
      invariant 0 <= p <= |pages|
      invariant seen == Flatten(pages[..p])
      invariant table.Valid()
      invariant added + skipped + formatSkipped == |seen|
      invariant formatSkipped == UnmappableCount(seen)
      invariant |table.rows| == |before| + added
      invariant KeepsRows(before, table.rows)
      invariant UrlsOf(table.rows) == initial + UrlSet(seen, SeededUrl)
      invariant added == |UrlSet(seen, SeededUrl) - initial|
    {
      FlattenSnoc(pages, p);
      added, skipped, formatSkipped := SeedNextPage(table, pages[p], before, seen, added, skipped, formatSkipped);
      seen := seen + pages[p];
      p := p + 1;
    }
    assert pages[..p] == pages;
    SeedingKeepsUrlsUnique(before, table.rows, UrlSet(seen, SeededUrl), added);
  }
}
