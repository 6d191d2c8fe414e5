/** The book validators: `bookSchema`, which checks and normalises the
    fields of a book before it is stored, and `gutendexBookSchema`, which
    reads the metadata record of the Gutendex catalogue. */
module BookSchema {
  import opened Wrappers
  import opened Text

  /** The checks of `bookSchema`, one per declared rule. */
  datatype BookIssue =
    | TitleTooShort | TitleTooLong | AuthorTooShort | AuthorTooLong
    | LanguageNotIso | DescriptionTooLong | FilepathShape | CoverShape
    | WordCountNegative | OwnerIdShape | OwnerIdRequired

  /** A book as handed to `bookSchema.parse`; optional fields may be absent. */
  datatype BookDraft = BookDraft(
    title: string, author: string, language: string, description: Option<string>,
    filepath: string, coverImagePath: Option<string>, wordCount: Option<int>,
    isPublicDomain: Option<bool>, ownerId: Option<string>)

  /** The parsed book: trimmed and lowercased fields, `isPublicDomain`
      defaulted. Keys the schema does not declare are not kept. */
  datatype BookInput = BookInput(
    title: string, author: string, language: string, description: Option<string>,
    filepath: string, coverImagePath: Option<string>, wordCount: Option<int>,
    isPublicDomain: bool, ownerId: Option<string>)

  predicate IsSegmentChar(c: char) {
    IsWordChar(c) || c == '-'
  }

  predicate IsSeparator(c: char) {
    c == '/' || c == '\\'
  }

  /** `[\w-]+(?:[/\\][\w-]+)*`: segments of word characters and dashes,
      one separator between each two. */
  predicate PathShape(b: string) {
    && b != []
    && IsSegmentChar(b[0]) && IsSegmentChar(b[|b| - 1])
    && (forall i :: 0 <= i < |b| ==> IsSegmentChar(b[i]) || IsSeparator(b[i]))
    && (forall i :: 0 <= i < |b| - 1 ==> IsSegmentChar(b[i]) || IsSegmentChar(b[i + 1]))
  }

  /** The main part of the path patterns: the segments, then `ext` in any
      letter case, up to the end. */
  predicate ShapedWithExtension(s: string, ext: string) {
    |s| > |ext| && PathShape(s[..|s| - |ext|]) && Lower(s[|s| - |ext|..]) == ext
  }

  /** No line terminator comes before position `i`. */
  predicate OnFirstLine(s: string, i: nat)
    requires i <= |s|
  {
    forall k :: 0 <= k < i ==> !IsLineTerminator(s[k])
  }

  /** `(?!.*\.\.)`: no ".." before the first line terminator. */
  predicate NoDotDot(s: string) {
    forall i :: 0 <= i < |s| - 1 && OnFirstLine(s, i) ==> !(s[i] == '.' && s[i + 1] == '.')
  }

  /** `(?![/\\])`: the path does not start with a separator. */
  predicate NoLeadingSeparator(s: string) {
    s == [] || !IsSeparator(s[0])
  }

  /** The `filepath` pattern. */
  predicate FilepathOk(s: string) {
    NoDotDot(s) && NoLeadingSeparator(s) && ShapedWithExtension(s, ".txt")
  }

  /** The `coverImagePath` pattern. */
  predicate CoverOk(s: string) {
    && NoDotDot(s) && NoLeadingSeparator(s)
    && (ShapedWithExtension(s, ".png") || ShapedWithExtension(s, ".jpg") || ShapedWithExtension(s, ".jpeg"))
  }

  /** The two look-aheads of the path patterns add nothing: a path of the
      required shape never starts with a separator and never holds "..",
      because its segments hold no dot and its extension has one dot only,
      at its start. */
  lemma {:induction false} LookaheadsImplied(s: string, ext: string)
    requires ext == ".txt" || ext == ".png" || ext == ".jpg" || ext == ".jpeg"
    requires ShapedWithExtension(s, ext)
    ensures NoDotDot(s) && NoLeadingSeparator(s)
  {
    var n := |s| - |ext|;
    var body := s[..n];
    var tail := s[n..];
    assert s[0] == body[0];
    forall i | 0 <= i < |s| - 1 && OnFirstLine(s, i)
      ensures !(s[i] == '.' && s[i + 1] == '.')
    {
      if i < n {
        assert s[i] == body[i];
      } else {
        var k := i + 1 - n;
        assert 1 <= k < |ext| && ext[k] != '.';
        assert tail[k] == s[i + 1];
        LowerAt(tail, k);
        assert LowerChar(tail[k]) == ext[k];
      }
    }
  }

  /** What a field must satisfy, stated directly. */
  predicate DraftOk(d: BookDraft) {
    && 1 <= |d.title| <= 255
    && 1 <= |d.author| <= 100
    && IsTwoLetterCode(Lower(Trim(d.language)))
    && (d.description.Some? ==> |d.description.value| <= 2000)
    && FilepathOk(Trim(d.filepath))
    && (d.coverImagePath.Some? ==> CoverOk(Trim(d.coverImagePath.value)))
    && (d.wordCount.Some? ==> d.wordCount.value >= 0)
    && (d.ownerId.Some? ==> IsObjectIdText(d.ownerId.value))
    && (d.isPublicDomain == Some(false) ==> d.ownerId.Some? && d.ownerId.value != "")
  }

  function Check(ok: bool, issue: BookIssue): seq<BookIssue> {
    if ok then [] else [issue]
  }

  /** The field checks in declaration order. The length bounds of `title`
      and `author` come before their `trim`, so they measure the untrimmed
      text. */
  function FieldIssues(d: BookDraft): seq<BookIssue> {
    Check(|d.title| >= 1, TitleTooShort) + Check(|d.title| <= 255, TitleTooLong)
    + Check(|d.author| >= 1, AuthorTooShort) + Check(|d.author| <= 100, AuthorTooLong)
    + Check(IsTwoLetterCode(Lower(Trim(d.language))), LanguageNotIso)
    + Check(d.description.None? || |d.description.value| <= 2000, DescriptionTooLong)
    + Check(FilepathOk(Trim(d.filepath)), FilepathShape)
    + Check(d.coverImagePath.None? || CoverOk(Trim(d.coverImagePath.value)), CoverShape)
    + Check(d.wordCount.None? || d.wordCount.value >= 0, WordCountNegative)
    + Check(d.ownerId.None? || IsObjectIdText(d.ownerId.value), OwnerIdShape)
  }

  /** The `superRefine`: a book that is not public domain needs an owner. */
  function RefineIssues(d: BookDraft): seq<BookIssue> {
    var isPublicDomain := d.isPublicDomain.GetOr(true);
    Check(isPublicDomain || (d.ownerId.Some? && d.ownerId.value != ""), OwnerIdRequired)
  }

  /** `bookSchema.parse`. */
  function ParseBook(d: BookDraft): (r: Result<BookInput, seq<BookIssue>>)
    ensures r.Ok? ==> r.value.isPublicDomain || (r.value.ownerId.Some? && IsObjectIdText(r.value.ownerId.value))
    ensures r.Err? ==> |r.error| > 0
  {
    var issues := FieldIssues(d) + RefineIssues(d);
    if |issues| > 0 then Err(issues)
    else Ok(BookInput(Trim(d.title), Trim(d.author), Lower(Trim(d.language)), d.description,
                      Trim(d.filepath), if d.coverImagePath.Some? then Some(Trim(d.coverImagePath.value)) else None,
                      d.wordCount, d.isPublicDomain.GetOr(true), d.ownerId))
  }

  /** `bookSchema` accepts exactly the drafts whose fields satisfy their
      rules, and yields the normalised fields with `isPublicDomain`
      defaulting to true. */
  lemma {:induction false} ParseBookAcceptsExactly(d: BookDraft)
    ensures ParseBook(d).Ok? <==> DraftOk(d)
    ensures ParseBook(d).Ok? ==>
              var b := ParseBook(d).value;
              && b.title == Trim(d.title) && b.author == Trim(d.author)
              && IsTwoLetterCode(b.language) && b.language == Lower(Trim(d.language))
              && FilepathOk(b.filepath) && b.filepath == Trim(d.filepath)
              && (b.coverImagePath.Some? <==> d.coverImagePath.Some?)
              && (b.coverImagePath.Some? ==> CoverOk(b.coverImagePath.value))
              && b.isPublicDomain == d.isPublicDomain.GetOr(true)
              && (d.isPublicDomain.None? ==> b.isPublicDomain)
              && b.description == d.description && b.ownerId == d.ownerId
              && b.wordCount == d.wordCount
              && (b.wordCount.Some? ==> b.wordCount.value >= 0)
  {
  }

  /** The title's length bounds measure the text before trimming, so a
      title of blanks passes and is stored as the empty string. */
  lemma {:induction false} BlankTitlePasses(d: BookDraft)
    requires DraftOk(d)
    requires AllBlank(JsWhitespace, d.title)
    ensures ParseBook(d).Ok? && ParseBook(d).value.title == ""
  {
    ParseBookAcceptsExactly(d);
    var r := ParseBook(d);
    assert r.Ok?;
    BlankTrimsToEmpty(d.title);
    assert r.value.title == Trim(d.title);
  }

  lemma {:induction false} BlankTrimsToEmpty(s: string)
    requires AllBlank(JsWhitespace, s)
    ensures Trim(s) == ""
  {
    TrimPadded(s, "", "");
    assert s + "" + "" == s;
  }

  // ---------------------------------------------------------------------------
  // the Gutendex catalogue record

  /** A catalogue record as the Gutendex service sends it (only the fields
      the importer reads). */
  datatype GutendexRecord = GutendexRecord(
    id: int, title: string, authors: Option<seq<string>>, languages: seq<string>,
    formats: seq<(string, string)>, summaries: Option<seq<string>>, subjects: Option<seq<string>>)

  /** What the importer works with after parsing the record. */
  datatype GutendexBook = GutendexBook(
    id: int, title: string, authors: Option<seq<string>>, languages: seq<string>,
    formats: seq<(string, string)>, summaries: Option<seq<string>>, subjects: Option<seq<string>>)

  /** `gutendexBookSchema.parse` as declared: the schema names neither
      `summaries` nor `subjects`, so the parse strips both. */
  function ParseGutendexAsWritten(rec: GutendexRecord): (b: GutendexBook)
    ensures b.summaries.None? && b.subjects.None?
    ensures b.id == rec.id && b.title == rec.title && b.authors == rec.authors
            && b.languages == rec.languages && b.formats == rec.formats
  {
    GutendexBook(rec.id, rec.title, rec.authors, rec.languages, rec.formats, None, None)
  }

  /** The schema with `summaries` and `subjects` declared as optional
      lists of strings: the record's fields all pass through. */
  function ParseGutendex(rec: GutendexRecord): (b: GutendexBook)
    ensures b.summaries == rec.summaries && b.subjects == rec.subjects
    ensures b.id == rec.id && b.title == rec.title && b.authors == rec.authors
            && b.languages == rec.languages && b.formats == rec.formats
  {
    GutendexBook(rec.id, rec.title, rec.authors, rec.languages, rec.formats, rec.summaries, rec.subjects)
  }

  /** Which declaration of `gutendexBookSchema` parses the record: the one
      the repository has, or one that also declares `summaries` and
      `subjects`. */
  datatype RecordSchema = AsDeclared | WithSummaries

  function ParseRecord(schema: RecordSchema, rec: GutendexRecord): GutendexBook {
    match schema
    case AsDeclared => ParseGutendexAsWritten(rec)
    case WithSummaries => ParseGutendex(rec)
  }
}
