/** What the two catalogue seeders of src/config share: the record their
    mappers build, `Array.prototype.slice(0, n)`, order-keeping
    de-duplication through a `Set`, the concatenation of the fetched pages,
    and the "skip when the file URL exists, otherwise createBook" step of
    their loops, with the set of file URLs the catalogue holds. */
module SeedCommon {
  import opened Wrappers
  import opened Seqs
  import opened BookModel

  /** The object a mapper returns. createBook reads only the first seven
      fields; `source` and `downloadUrl` are dropped on insert. */
  datatype SeedRecord = SeedRecord(
    title: string, author: string, description: string, fileUrl: string,
    coverUrl: Option<string>, tags: seq<string>, isPremium: bool,
    source: string, downloadUrl: string)

  /** The argument createBook receives: every field it destructures is defined. */
  function ToNewBook(m: SeedRecord): (nb: NewBook)
    ensures nb.fileUrl == m.fileUrl && nb.tags == Some(m.tags) && nb.isPremium == Some(m.isPremium)
  {
    NewBook(m.title, m.author, m.description, m.fileUrl, m.coverUrl, Some(m.tags), Some(m.isPremium))
  }

  const NO_DESCRIPTION := "No description available."

  /** `s.slice(0, n)`: the first n elements, or all of them when there are fewer. */
  function Take<T>(s: seq<T>, n: nat): (r: seq<T>)
    ensures |r| <= n && |r| <= |s|
    ensures |r| == n || |r| == |s|
    ensures r == s[..|r|]
  {
    if |s| <= n then s else s[..n]
  }

  /** `[...new Set(s)]`: each value once, at the place it first occurs. */
  function Dedupe(s: seq<string>): (r: seq<string>)
    ensures |r| <= |s|
    ensures forall i, j :: 0 <= i < j < |r| ==> r[i] != r[j]
    ensures forall x :: x in r <==> x in s
    decreases |s|
  {
    if |s| == 0 then []
    else
      var d := Dedupe(s[..|s| - 1]);
      var x := s[|s| - 1];
      assert s == s[..|s| - 1] + [x];
      if x in d then d else d + [x]
  }

  /** The position of the first occurrence of x in s. */
  function IndexOf(s: seq<string>, x: string): (k: nat)
    requires x in s
    ensures k < |s| && s[k] == x
    ensures forall i :: 0 <= i < k ==> s[i] != x
  {
    if s[0] == x then 0 else 1 + IndexOf(s[1..], x)
  }

  lemma {:induction false} IndexOfSnoc(s: seq<string>, x: string, y: string)
    requires y in s
    ensures IndexOf(s + [x], y) == IndexOf(s, y)
  {
    if s[0] != y {
      assert (s + [x])[1..] == s[1..] + [x];
      IndexOfSnoc(s[1..], x, y);
    }
  }

  /** The values of `Dedupe(s)` come in the order of their first occurrences in s. */
  lemma {:induction false} DedupeKeepsFirstOccurrenceOrder(s: seq<string>)
    ensures forall i, j :: 0 <= i < j < |Dedupe(s)| ==> IndexOf(s, Dedupe(s)[i]) < IndexOf(s, Dedupe(s)[j])
    decreases |s|
  {
    if |s| > 0 {
      var p := s[..|s| - 1];
      var x := s[|s| - 1];
      assert s == p + [x];
      DedupeKeepsFirstOccurrenceOrder(p);
      var d := Dedupe(p);
      var r := Dedupe(s);
      forall y | y in d ensures IndexOf(s, y) == IndexOf(p, y) {
        IndexOfSnoc(p, x, y);
      }
      if x !in d {
        assert r == d + [x];
        assert IndexOf(s, x) == |p|;
      }
    }
  }

  /** A value that is not among the first n distinct values of s first
      occurs after every one of them, and then there are n of them. */
  lemma TakeDedupeLeavesLater(s: seq<string>, n: nat, x: string)
    requires x in s && x !in Take(Dedupe(s), n)
    ensures |Take(Dedupe(s), n)| == n
    ensures forall i :: 0 <= i < n ==> IndexOf(s, Take(Dedupe(s), n)[i]) < IndexOf(s, x)
  {
    var d := Dedupe(s);
    var r := Take(d, n);
    DedupeKeepsFirstOccurrenceOrder(s);
    var m :| 0 <= m < |d| && d[m] == x;
    forall i | 0 <= i < n ensures IndexOf(s, r[i]) < IndexOf(s, x) {
      assert r[i] == d[i];
    }
  }

  /** The books of all fetched pages, in fetch order. */
  function Flatten<T>(pages: seq<seq<T>>): (r: seq<T>)
    ensures |pages| == 0 ==> r == []
  {
    if |pages| == 0 then [] else Flatten(pages[..|pages| - 1]) + pages[|pages| - 1]
  }

  lemma FlattenSnoc<T>(pages: seq<seq<T>>, p: nat)
    requires p < |pages|
    ensures Flatten(pages[..p + 1]) == Flatten(pages[..p]) + pages[p]
  {
    assert pages[..p + 1][..p] == pages[..p];
  }

  function FileUrl(b: Book): string {
    b.fileUrl
  }

  function BookUrl(b: Book): Option<string> {
    Some(b.fileUrl)
  }

  /** The file URLs the catalogue holds. */
  ghost function UrlsOf(rows: seq<Book>): set<string> {
    UrlsUpTo(rows, |rows|, BookUrl)
  }

  lemma UrlsOfMember(rows: seq<Book>, u: string)
    ensures u in UrlsOf(rows) <==> exists i :: 0 <= i < |rows| && rows[i].fileUrl == u
  {
    UrlsUpToMembers(rows, |rows|, BookUrl, u);
    if exists i :: 0 <= i < |rows| && rows[i].fileUrl == u {
      var i :| 0 <= i < |rows| && rows[i].fileUrl == u;
      assert BookUrl(rows[i]) == Some(u);
    }
  }

  /** The seeders only append: `after` keeps `before` as its prefix. */
  predicate KeepsRows(before: seq<Book>, after: seq<Book>) {
    |before| <= |after| && after[..|before|] == before
  }

  /** Appending twice keeps the first table as a prefix. */
  lemma KeepsRowsTrans(a: seq<Book>, b: seq<Book>, c: seq<Book>)
    requires KeepsRows(a, b) && KeepsRows(b, c)
    ensures KeepsRows(a, c)
  {
    assert c[..|a|] == c[..|b|][..|a|];
  }

  lemma UrlsOfSnoc(rows: seq<Book>, b: Book)
    ensures UrlsOf(rows + [b]) == UrlsOf(rows) + {b.fileUrl}
  {
    UrlsUpToPrefix(rows, [b], |rows|, BookUrl);
    assert (rows + [b])[|rows|] == b;
  }

  /** The URLs that the first n of the given books would be stored under;
      `url` is None for a book the loop does not store. */
  ghost function UrlsUpTo<T>(xs: seq<T>, n: nat, url: T -> Option<string>): set<string>
    requires n <= |xs|
  {
    if n == 0 then {}
    else
      var last := url(xs[n - 1]);
      UrlsUpTo(xs, n - 1, url) + (if last.Some? then {last.value} else {})
  }

  ghost function UrlSet<T>(xs: seq<T>, url: T -> Option<string>): set<string> {
    UrlsUpTo(xs, |xs|, url)
  }

  /** A URL is in the set exactly when some book maps to it. */
  lemma {:induction false} UrlsUpToMembers<T>(xs: seq<T>, n: nat, url: T -> Option<string>, u: string)
    requires n <= |xs|
    ensures u in UrlsUpTo(xs, n, url) <==> exists i :: 0 <= i < n && url(xs[i]) == Some(u)
  {
    if n > 0 {
      UrlsUpToMembers(xs, n - 1, url, u);
    }
  }

  lemma {:induction false} UrlsUpToPrefix<T>(xs: seq<T>, ys: seq<T>, n: nat, url: T -> Option<string>)
    requires n <= |xs|
    ensures UrlsUpTo(xs + ys, n, url) == UrlsUpTo(xs, n, url)
  {
    if n > 0 {
      assert (xs + ys)[n - 1] == xs[n - 1];
      UrlsUpToPrefix(xs, ys, n - 1, url);
    }
  }

  lemma {:induction false} UrlSetAppend<T>(xs: seq<T>, ys: seq<T>, url: T -> Option<string>)
    ensures UrlSet(xs + ys, url) == UrlSet(xs, url) + UrlSet(ys, url)
    decreases |ys|
  {
    var zs := xs + ys;
    if |ys| == 0 {
      assert zs == xs;
    } else {
      var ys' := ys[..|ys| - 1];
      assert zs[..|zs| - 1] == xs + ys';
      UrlSetAppend(xs, ys', url);
      UrlsUpToPrefix(xs + ys', [ys[|ys| - 1]], |xs + ys'|, url);
      assert (xs + ys') + [ys[|ys| - 1]] == zs;
      UrlsUpToPrefix(ys', [ys[|ys| - 1]], |ys'|, url);
      assert ys' + [ys[|ys| - 1]] == ys;
    }
  }

  /** Every row has its own file URL: there are as many URLs as rows. */
  ghost predicate UrlsUnique(rows: seq<Book>) {
    |UrlsOf(rows)| == |rows|
  }

  lemma {:induction false} UrlsAtMostRows(rows: seq<Book>)
    ensures |UrlsOf(rows)| <= |rows|
    decreases |rows|
  {
    if |rows| > 0 {
      var p := rows[..|rows| - 1];
      assert rows == p + [rows[|rows| - 1]];
      UrlsOfSnoc(p, rows[|rows| - 1]);
      UrlsAtMostRows(p);
    }
  }

  lemma {:induction false} DistinctUrlsCount(rows: seq<Book>)
    requires DistinctBy(rows, FileUrl)
    ensures UrlsUnique(rows)
    decreases |rows|
  {
    if |rows| > 0 {
      var p := rows[..|rows| - 1];
      var last := rows[|rows| - 1];
      assert DistinctBy(p, FileUrl) by {
        forall i, j | 0 <= i < |p| && 0 <= j < |p| && i != j ensures FileUrl(p[i]) != FileUrl(p[j]) {
          assert FileUrl(rows[i]) != FileUrl(rows[j]);
        }
      }
      DistinctUrlsCount(p);
      forall i | 0 <= i < |p| ensures p[i].fileUrl != last.fileUrl {
        assert FileUrl(rows[i]) != FileUrl(rows[|rows| - 1]);
      }
      assert rows == p + [last];
      UrlsOfSnoc(p, last);
      UrlsOfMember(p, last.fileUrl);
    }
  }

  lemma {:induction false} DuplicateShrinks(rows: seq<Book>, i: nat, j: nat)
    requires i < j < |rows| && rows[i].fileUrl == rows[j].fileUrl
    ensures |UrlsOf(rows)| < |rows|
    decreases |rows|
  {
    var p := rows[..|rows| - 1];
    var last := rows[|rows| - 1];
    assert rows == p + [last];
    UrlsOfSnoc(p, last);
    if j == |rows| - 1 {
      assert p[i] == rows[i];
      UrlsOfMember(p, last.fileUrl);
      UrlsAtMostRows(p);
    } else {
      assert p[i] == rows[i] && p[j] == rows[j];
      DuplicateShrinks(p, i, j);
    }
  }

  /** Having as many URLs as rows is the same as no two rows sharing a URL. */
  lemma UrlsUniqueIsDistinct(rows: seq<Book>)
    ensures UrlsUnique(rows) <==> DistinctBy(rows, FileUrl)
  {
    if DistinctBy(rows, FileUrl) {
      DistinctUrlsCount(rows);
    } else {
      var i, j :| 0 <= i < |rows| && 0 <= j < |rows| && i != j && FileUrl(rows[i]) == FileUrl(rows[j]);
      if i < j {
        DuplicateShrinks(rows, i, j);
      } else {
        DuplicateShrinks(rows, j, i);
      }
    }
  }

  /** The loops' step once a record is mapped: skipped when findBookByFileUrl
      finds its URL, otherwise stored by createBook. A URL is never stored
      twice by it. */
  method InsertIfAbsent(table: BookTable, nb: NewBook) returns (added: bool)
    requires table.Valid()
    modifies table
    ensures table.Valid()
    ensures added <==> nb.fileUrl !in UrlsOf(old(table.rows))
    ensures !added ==> table.rows == old(table.rows)
    ensures added ==> table.rows == old(table.rows) + [Book(old(table.nextId), nb.title, nb.author, nb.description,
                                                            nb.fileUrl, nb.coverUrl, nb.tags.GetOr([]), nb.isPremium.GetOr(false))]
    ensures UrlsOf(table.rows) == UrlsOf(old(table.rows)) + {nb.fileUrl}
  {
    var existing := table.FindBookByFileUrl(nb.fileUrl);
    UrlsOfMember(table.rows, nb.fileUrl);
    if existing.Some? {
      added := false;
    } else {
      var before := table.rows;
      var book := table.CreateBook(nb);
      added := true;
      UrlsOfSnoc(before, book);
    }
  }

  /** How many of the first n items carry a URL that neither `initial` nor
      an earlier item holds: the number of rows a seeding loop over them
      adds to a catalogue whose URLs are `initial`. */
  ghost function NewUrlCount<T>(xs: seq<T>, n: nat, url: T -> Option<string>, initial: set<string>): nat
    requires n <= |xs|
  {
    if n == 0 then 0
    else
      var last := url(xs[n - 1]);
      NewUrlCount(xs, n - 1, url, initial)
        + if last.Some? && last.value !in initial + UrlsUpTo(xs, n - 1, url) then 1 else 0
  }

  /** Counting the new URLs one by one gives the number of URLs of the
      items that `initial` lacks. */
  lemma {:induction false} NewUrlCountIsCard<T>(xs: seq<T>, n: nat, url: T -> Option<string>, initial: set<string>)
    requires n <= |xs|
    ensures NewUrlCount(xs, n, url, initial) == |UrlsUpTo(xs, n, url) - initial|
    decreases n
  {
    if n == 0 {
      assert UrlsUpTo(xs, 0, url) - initial == {};
    } else {
      var prev, last := UrlsUpTo(xs, n - 1, url), url(xs[n - 1]);
      var step := if last.Some? && last.value !in initial + prev then 1 else 0;
      calc {
        NewUrlCount(xs, n, url, initial);
        NewUrlCount(xs, n - 1, url, initial) + step;
        { NewUrlCountIsCard(xs, n - 1, url, initial); }
        |prev - initial| + step;
        { NewUrlStep(prev, initial, last, UrlsUpTo(xs, n, url)); }
        |UrlsUpTo(xs, n, url) - initial|;
      }
    }
  }

  lemma NewUrlStep(prev: set<string>, initial: set<string>, last: Option<string>, next: set<string>)
    requires next == prev + if last.Some? then {last.value} else {}
    ensures |next - initial| == |prev - initial| + if last.Some? && last.value !in initial + prev then 1 else 0
  {
    if last.Some? && last.value !in initial + prev {
      assert next - initial == (prev - initial) + {last.value};
    } else {
      assert next - initial == prev - initial;
    }
  }

  /** The URLs two runs add, one after the other, are those the first adds
      and those the second adds to what the first left. */
  lemma NewUrlsAppend(initial: set<string>, first: set<string>, second: set<string>)
    ensures |(first + second) - initial| == |first - initial| + |second - (initial + first)|
  {
    assert (first + second) - initial == (first - initial) + (second - (initial + first));
    assert (first - initial) !! (second - (initial + first));
  }

  lemma UnionCount(a: set<string>, b: set<string>, c: set<string>)
    requires c == a + b
    ensures |c| == |a| + |b - a|
  {
    assert c == a + (b - a);
    assert a !! (b - a);
  }

  /** A seeding run that adds one row per URL it gains keeps a catalogue
      with unique URLs unique. */
  lemma SeedingKeepsUrlsUnique(before: seq<Book>, after: seq<Book>, seeded: set<string>, added: nat)
    requires |after| == |before| + added
    requires UrlsOf(after) == UrlsOf(before) + seeded
    requires added == |seeded - UrlsOf(before)|
    ensures UrlsUnique(before) ==> UrlsUnique(after)
  {
    UnionCount(UrlsOf(before), seeded, UrlsOf(after));
  }
}
