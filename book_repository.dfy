/** The book repository's own logic: the query `findPublicBooks` sends to
    the store (filter, sort and page), the guard in front of a public book's
    content, and the word count of an uploaded file. The store itself is an
    input: the number of matching books, the stored book and the file probe
    are handed in. */
module BookRepository {
  import opened Wrappers
  import opened Text
  import opened Paging
  import opened Paths
  import ImportBooks

  /** The query-string fields `findPublicBooks` reads. */
  datatype FindBooksQuery = FindBooksQuery(
    page: RawNumber, limit: RawNumber, language: Option<string>, search: Option<string>,
    sortBy: Option<string>, sortOrder: Option<string>)

  /** A JavaScript string is truthy when it is present and non-empty. */
  predicate Given(s: Option<string>) {
    s.Some? && s.value != ""
  }

  // ---------------------------------------------------------------------------
  // escaping the search text

  /** The characters of `/[.*+?^${}()|[\]\\]/`. */
  predicate IsRegexMeta(c: char) {
    c in ".*+?^${}()|[]\\"
  }

  /** `replace(/[.*+?^${}()|[\]\\]/g, "\\$&")`: a backslash before every
      metacharacter. */
  function EscapeRegex(s: string): (r: string)
    ensures |r| >= |s|
  {
    if s == [] then []
    else (if IsRegexMeta(s[0]) then ['\\', s[0]] else [s[0]]) + EscapeRegex(s[1..])
  }

  /** The text a pattern stands for when it is a plain sequence of literal
      characters: an escaped metacharacter stands for itself, any other
      character but a metacharacter for itself; an unescaped metacharacter
      or any other escape makes the pattern more than a literal. */
  function LiteralOf(p: string): Option<string>
    decreases |p|
  {
    if p == [] then Some([])
    else if p[0] == '\\' then
      if |p| >= 2 && IsRegexMeta(p[1]) then
        match LiteralOf(p[2..])
        case Some(rest) => Some([p[1]] + rest)
        case None => None
      else None
    else if IsRegexMeta(p[0]) then None
    else
      match LiteralOf(p[1..])
      case Some(rest) => Some([p[0]] + rest)
      case None => None
  }

  /** The escaped search text is a pattern of literals only, and the
      literal it stands for is the search text itself: no character of the
      user's search acts as a regular-expression operator. */
  lemma {:induction false} EscapedSearchIsLiteral(s: string)
    ensures LiteralOf(EscapeRegex(s)) == Some(s)
  {
    if s != [] {
      EscapedSearchIsLiteral(s[1..]);
      var rest := EscapeRegex(s[1..]);
      if IsRegexMeta(s[0]) {
        var p := ['\\', s[0]] + rest;
        assert p[2..] == rest;
      } else {
        var p := [s[0]] + rest;
        assert p[1..] == rest;
      }
      assert s == [s[0]] + s[1..];
    }
  }

  /** Text free of metacharacters goes through the escape unchanged. */
  lemma {:induction false} EscapeKeepsPlainText(s: string)
    requires forall k :: 0 <= k < |s| ==> !IsRegexMeta(s[k])
    ensures EscapeRegex(s) == s
  {
    if s != [] {
      EscapeKeepsPlainText(s[1..]);
      assert s == [s[0]] + s[1..];
    }
  }

  // ---------------------------------------------------------------------------
  // the query of findPublicBooks

  /** The filter document: always public books, the lowercased language
      when one is given, and the escaped search text matched
      case-insensitively against title or author when one is given. */
  datatype Filter = Filter(visibility: string, language: Option<string>, titleOrAuthor: Option<string>)

  /** `String(search).slice(0, 100)` escaped. */
  function SearchPattern(search: string): string {
    EscapeRegex(search[..Min(100, |search|)])
  }

  function BookFilter(q: FindBooksQuery): (f: Filter)
    ensures f.visibility == "public"
    ensures f.language.Some? <==> Given(q.language)
    ensures Given(q.language) ==> f.language.value == Lower(q.language.value)
    ensures f.titleOrAuthor.Some? <==> Given(q.search)
    ensures Given(q.search) ==> LiteralOf(f.titleOrAuthor.value) == Some(q.search.value[..Min(100, |q.search.value|)])
  {
    var language := if Given(q.language) then Some(Lower(q.language.value)) else None;
    if Given(q.search) then
      var cut := q.search.value[..Min(100, |q.search.value|)];
      EscapedSearchIsLiteral(cut);
      Filter("public", language, Some(EscapeRegex(cut)))
    else Filter("public", language, None)
  }

  /** The search term a filter stands for holds at most 100 characters of
      the user's text, taken from its start. */
  lemma {:induction false} SearchIsCutToHundred(q: FindBooksQuery)
    requires Given(q.search)
    ensures var term := LiteralOf(BookFilter(q).titleOrAuthor.value).value;
            |term| <= 100 && term <= q.search.value
            && (|q.search.value| <= 100 ==> term == q.search.value)
  {
  }

  /** The sort document: one field, 1 for ascending, -1 for descending. */
  datatype Sort = Sort(field: string, order: int)

  function BookSort(q: FindBooksQuery): (s: Sort)
    ensures s.order == 1 || s.order == -1
    ensures s.order == 1 <==> q.sortOrder == Some("asc")
    ensures Given(q.sortBy) ==> s.field == q.sortBy.value
    ensures !Given(q.sortBy) ==> s.field == "wordCount"
  {
    Sort(if Given(q.sortBy) then q.sortBy.value else "wordCount", if q.sortOrder == Some("asc") then 1 else -1)
  }

  /** Everything `findPublicBooks` asks of the store once it knows how many
      books match the filter. */
  datatype BookQuery = BookQuery(filter: Filter, sort: Sort, page: PageRequest)

  function FindPublicBooks(q: FindBooksQuery, total: nat): (r: BookQuery)
    ensures r.filter == BookFilter(q) && r.sort == BookSort(q)
    ensures r.page == Paginate(q.page, q.limit, total)
  {
    BookQuery(BookFilter(q), BookSort(q), Paginate(q.page, q.limit, total))
  }

  /** The paging of `findPublicBooks`: a page from 1 on, a limit from 1 to
      100 (20 when missing), and a skip that lands on an existing page. */
  lemma {:induction false} FindPublicBooksPaging(q: FindBooksQuery, total: nat)
    ensures var r := FindPublicBooks(q, total).page;
            && 1 <= r.take <= 100 && r.take == Limit(q.limit)
            && (q.limit == NotANumber || q.limit == Integer(0) ==> r.take == 20)
            && r.meta.page >= 1
            && r.skip == (r.meta.page - 1) * r.take
            && r.meta.totalPages == CeilDiv(total, r.take)
            && (total > 0 ==> r.skip < total)
            && (PageNumber(q.page) <= r.meta.totalPages ==> r.meta.page == PageNumber(q.page))
  {
    PaginateServesExistingPage(q.page, q.limit, total);
  }

  // ---------------------------------------------------------------------------
  // findPublicBookContentById

  /** The fields of a stored book the content lookup reads. */
  datatype StoredBook = StoredBook(filepath: Option<string>)

  /** What `fs.stat` and `fs.access` found at the resolved path. */
  datatype FileProbe = NoSuchFile | NotAFile | Unreadable | Readable(size: nat)

  /** The thrown `{ status, message }` object. */
  datatype StatusError = StatusError(status: int, message: string)

  /** The file to stream, by its resolved path, and its size. */
  datatype Content = Content(path: seq<string>, size: nat)

  const BookNotFound: string := "Book not found"
  const ContentNotFound: string := "Book content not found"
  const InvalidFilepath: string := "Invalid book filepath"

  /** `findPublicBookContentById` given the public book found for the id
      (if any) and what probing its resolved path reports. Every failure of
      the probe lands in the `catch` and reads as missing content. */
  function FindPublicBookContent(root: seq<string>, book: Option<StoredBook>, probe: seq<string> -> FileProbe)
    : (r: Result<Content, StatusError>)
    requires Normal(root)
    ensures r.Err? && r.error.status == 400 <==>
              book.Some? && Given(book.value.filepath) && !Accepts(root, book.value.filepath.value)
    ensures r.Ok? ==> book.Some? && Given(book.value.filepath)
                      && r.value.path == Resolve(root, book.value.filepath.value)
                      && probe(r.value.path) == Readable(r.value.size)
    ensures r.Err? ==> r.error.status == 404 || r.error.status == 400
  {
    if book.None? then Err(StatusError(404, BookNotFound))
    else if !Given(book.value.filepath) then Err(StatusError(404, ContentNotFound))
    else
      var rel := book.value.filepath.value;
      if !Accepts(root, rel) then Err(StatusError(400, InvalidFilepath))
      else
        var absolute := Resolve(root, rel);
        match probe(absolute)
        case Readable(size) => Ok(Content(absolute, size))
        case _ => Err(StatusError(404, ContentNotFound))
  }

  /** Content is only ever served from inside the storage root, and a
      stored path that leaves it is refused with 400 before the file system
      is consulted. */
  lemma {:induction false} ContentStaysInside(root: seq<string>, book: Option<StoredBook>, probe: seq<string> -> FileProbe)
    requires Normal(root)
    ensures var r := FindPublicBookContent(root, book, probe);
            r.Ok? ==> root <= r.value.path
    ensures book.Some? && Given(book.value.filepath) && !Accepts(root, book.value.filepath.value) ==>
              FindPublicBookContent(root, book, probe) == Err(StatusError(400, InvalidFilepath))
  {
    if book.Some? && Given(book.value.filepath) {
      AcceptsIffInside(root, book.value.filepath.value);
    }
  }

  /** A missing book and a book without content are told apart. */
  lemma {:induction false} MissingBookOrContent(root: seq<string>, book: Option<StoredBook>, probe: seq<string> -> FileProbe)
    requires Normal(root)
    ensures book.None? ==> FindPublicBookContent(root, book, probe) == Err(StatusError(404, BookNotFound))
    ensures book.Some? && !Given(book.value.filepath) ==>
              FindPublicBookContent(root, book, probe) == Err(StatusError(404, ContentNotFound))
  {
  }

  // ---------------------------------------------------------------------------
  // countWordsInFile

  /** `countWordsInFile` on the file's text: the same rule as the importer's
      `countWords`, which is the number of maximal runs of non-whitespace,
      0 exactly for blank text. */
  function CountWordsInFile(content: string): (n: nat)
    ensures n == |Words(JsWhitespace, content)|
    ensures n == 0 <==> AllBlank(JsWhitespace, content)
  {
    ImportBooks.CountWordsIsWordCount(content);
    NoWordsIffAllBlank(JsWhitespace, content);
    ImportBooks.CountWords(content)
  }
}
