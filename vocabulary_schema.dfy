/** The vocabulary validators: the body of a new entry, the body of an
    update, and the query string of a listing. Each yields the parsed value
    or the list of the rules it breaks, field by field in declaration order. */
module VocabularySchema {
  import opened Wrappers
  import opened Text
  import opened Paging

  /** The learning status of an entry. */
  datatype Status = New | Learning | Mastered {
    function Name(): string {
      match this
      case New => "new"
      case Learning => "learning"
      case Mastered => "mastered"
    }
  }

  /** `z.enum(["new", "learning", "mastered"])`. */
  function ParseStatus(s: string): (r: Option<Status>)
    ensures r.Some? ==> r.value.Name() == s
    ensures r.None? ==> s != "new" && s != "learning" && s != "mastered"
  {
    if s == "new" then Some(New)
    else if s == "learning" then Some(Learning)
    else if s == "mastered" then Some(Mastered)
    else None
  }

  /** A JSON number: a whole number, or one with a fractional part. */
  datatype JsonNumber = Whole(n: int) | NonInteger

  /** The rules the validators report, one per declared check. */
  datatype VocabularyIssue =
    | WordTooShort | WordTooLong | MeaningTooShort | MeaningTooLong | BookIdShape
    | ContextTooShort | ContextTooLong | OffsetNotInteger | OffsetNegative | EndBeforeStart
    | LanguageNotIso | StatusNotAllowed
    | PageNotANumber | PageNotPositive | LimitNotANumber | LimitOutOfRange
    | SearchTooShort | SearchTooLong

  function Check(ok: bool, issue: VocabularyIssue): seq<VocabularyIssue> {
    if ok then [] else [issue]
  }

  // ---------------------------------------------------------------------------
  // the field rules

  /** A word: 2 to 100 characters before it is trimmed and lowercased. */
  function WordIssues(w: string): seq<VocabularyIssue> {
    Check(|w| >= 2, WordTooShort) + Check(|w| <= 100, WordTooLong)
  }

  /** A meaning: 2 to 500 characters before it is trimmed and lowercased. */
  function MeaningIssues(m: Option<string>): seq<VocabularyIssue> {
    if m.None? then [] else Check(|m.value| >= 2, MeaningTooShort) + Check(|m.value| <= 500, MeaningTooLong)
  }

  /** A context: 2 to 500 characters, kept as given. */
  function ContextIssues(c: Option<string>): seq<VocabularyIssue> {
    if c.None? then [] else Check(|c.value| >= 2, ContextTooShort) + Check(|c.value| <= 500, ContextTooLong)
  }

  /** The language after trimming and lowercasing: empty, or two letters. */
  predicate LanguageOk(raw: string) {
    var l := Lower(Trim(raw));
    l == "" || IsTwoLetterCode(l)
  }

  function LanguageIssues(l: Option<string>): seq<VocabularyIssue> {
    if l.None? then [] else Check(LanguageOk(l.value), LanguageNotIso)
  }

  function StatusIssues(s: Option<string>): seq<VocabularyIssue> {
    if s.None? then [] else Check(ParseStatus(s.value).Some?, StatusNotAllowed)
  }

  /** A position as sent: two offsets. */
  datatype RawPosition = RawPosition(startOffset: JsonNumber, endOffset: JsonNumber)

  /** A position as parsed. */
  datatype Position = Position(startOffset: nat, endOffset: nat)

  predicate OffsetOk(n: JsonNumber) {
    n.Whole? && n.n >= 0
  }

  function OffsetIssues(n: JsonNumber): seq<VocabularyIssue> {
    match n
    case NonInteger => [OffsetNotInteger]
    case Whole(k) => Check(k >= 0, OffsetNegative)
  }

  /** `positionSchema`: each offset a non-negative integer, then the
      refinement that the end does not come before the start (checked when
      both offsets are whole numbers). */
  function PositionIssues(p: RawPosition): seq<VocabularyIssue> {
    OffsetIssues(p.startOffset) + OffsetIssues(p.endOffset)
    + (if p.startOffset.Whole? && p.endOffset.Whole? then Check(p.endOffset.n >= p.startOffset.n, EndBeforeStart) else [])
  }

  function ParsePosition(p: RawPosition): (r: Result<Position, seq<VocabularyIssue>>)
    ensures r.Ok? <==> OffsetOk(p.startOffset) && OffsetOk(p.endOffset) && p.endOffset.n >= p.startOffset.n
    ensures r.Ok? ==> r.value.startOffset <= r.value.endOffset
                      && r.value.startOffset == p.startOffset.n && r.value.endOffset == p.endOffset.n
    ensures r.Err? ==> |r.error| > 0
  {
    var issues := PositionIssues(p);
    if |issues| > 0 then Err(issues) else Ok(Position(p.startOffset.n, p.endOffset.n))
  }

  // ---------------------------------------------------------------------------
  // createVocabularySchema

  /** The body of a new entry as sent. */
  datatype CreateDraft = CreateDraft(
    word: string, meaning: Option<string>, bookId: string, context: Option<string>,
    position: Option<RawPosition>, language: string, status: Option<string>)

  /** The parsed body of a new entry. */
  datatype CreateVocabularyInput = CreateVocabularyInput(
    word: string, meaning: Option<string>, bookId: string, context: Option<string>,
    position: Option<Position>, language: string, status: Status)

  function CreateIssues(d: CreateDraft): seq<VocabularyIssue> {
    WordIssues(d.word) + MeaningIssues(d.meaning) + Check(IsObjectIdText(d.bookId), BookIdShape)
    + ContextIssues(d.context) + PositionIssuesOf(d.position)
    + LanguageIssues(Some(d.language)) + StatusIssues(d.status)
  }

  /** `createVocabularySchema.parse`. */
  function ParseCreate(d: CreateDraft): (r: Result<CreateVocabularyInput, seq<VocabularyIssue>>)
    ensures r.Err? ==> |r.error| > 0
  {
    var issues := CreateIssues(d);
    if |issues| > 0 then Err(issues)
    else
      var position := if d.position.None? then None else Some(ParsePosition(d.position.value).value);
      var status := if d.status.None? then New else ParseStatus(d.status.value).value;
      Ok(CreateVocabularyInput(
        Lower(Trim(d.word)), if d.meaning.None? then None else Some(Lower(Trim(d.meaning.value))),
        d.bookId, d.context, position, Lower(Trim(d.language)), status))
  }

  /** What a new entry's body must satisfy, stated directly. */
  predicate CreateOk(d: CreateDraft) {
    && 2 <= |d.word| <= 100
    && (d.meaning.Some? ==> 2 <= |d.meaning.value| <= 500)
    && IsObjectIdText(d.bookId)
    && (d.context.Some? ==> 2 <= |d.context.value| <= 500)
    && (d.position.Some? ==> ParsePosition(d.position.value).Ok?)
    && LanguageOk(d.language)
    && (d.status.Some? ==> ParseStatus(d.status.value).Some?)
  }

  /** The create validator accepts exactly the bodies that satisfy the
      rules; it trims and lowercases the word, the meaning and the
      language, keeps the context, and defaults the status to "new". */
  lemma {:induction false} ParseCreateAcceptsExactly(d: CreateDraft)
    ensures ParseCreate(d).Ok? <==> CreateOk(d)
    ensures ParseCreate(d).Ok? ==>
              var v := ParseCreate(d).value;
              && v.word == Lower(Trim(d.word))
              && (v.meaning.Some? <==> d.meaning.Some?)
              && (v.meaning.Some? ==> v.meaning.value == Lower(Trim(d.meaning.value)))
              && IsObjectIdText(v.bookId) && v.bookId == d.bookId
              && v.context == d.context
              && (v.position.Some? <==> d.position.Some?)
              && (v.position.Some? ==> v.position.value.startOffset <= v.position.value.endOffset)
              && (v.language == "" || IsTwoLetterCode(v.language))
              && (d.status.None? ==> v.status == New)
              && (d.status.Some? ==> v.status.Name() == d.status.value)
  {
    CreateIssuesNoneIff(d);
    if ParseCreate(d).Ok? {
      CreateAccepted(d);
    }
  }

  /** No issue at all exactly when every field satisfies its rule. */
  lemma {:induction false} CreateIssuesNoneIff(d: CreateDraft)
    ensures |CreateIssues(d)| == 0 <==> CreateOk(d)
  {
    CreateIssuesLength(d);
    CreateFieldsNone(d);
  }

  function PositionIssuesOf(p: Option<RawPosition>): seq<VocabularyIssue> {
    if p.None? then [] else PositionIssues(p.value)
  }

  lemma {:induction false} CreateIssuesLength(d: CreateDraft)
    ensures |CreateIssues(d)| == |WordIssues(d.word)| + |MeaningIssues(d.meaning)| + |Check(IsObjectIdText(d.bookId), BookIdShape)|
                                 + |ContextIssues(d.context)| + |PositionIssuesOf(d.position)|
                                 + |LanguageIssues(Some(d.language))| + |StatusIssues(d.status)|
  {
  }

  lemma {:induction false} CreateFieldsNone(d: CreateDraft)
    ensures |WordIssues(d.word)| == 0 <==> 2 <= |d.word| <= 100
    ensures |MeaningIssues(d.meaning)| == 0 <==> (d.meaning.Some? ==> 2 <= |d.meaning.value| <= 500)
    ensures |Check(IsObjectIdText(d.bookId), BookIdShape)| == 0 <==> IsObjectIdText(d.bookId)
    ensures |ContextIssues(d.context)| == 0 <==> (d.context.Some? ==> 2 <= |d.context.value| <= 500)
    ensures |PositionIssuesOf(d.position)| == 0 <==> (d.position.Some? ==> ParsePosition(d.position.value).Ok?)
    ensures |LanguageIssues(Some(d.language))| == 0 <==> LanguageOk(d.language)
    ensures |StatusIssues(d.status)| == 0 <==> (d.status.Some? ==> ParseStatus(d.status.value).Some?)
  {
  }

  /** What an accepted body carries, field by field. */
  lemma {:induction false} CreateAccepted(d: CreateDraft)
    requires ParseCreate(d).Ok?
    ensures var v := ParseCreate(d).value;
            && v.word == Lower(Trim(d.word))
            && (v.meaning.Some? <==> d.meaning.Some?)
            && (v.meaning.Some? ==> v.meaning.value == Lower(Trim(d.meaning.value)))
            && IsObjectIdText(v.bookId) && v.bookId == d.bookId
            && v.context == d.context
            && (v.position.Some? <==> d.position.Some?)
            && (v.position.Some? ==> v.position.value.startOffset <= v.position.value.endOffset)
            && (v.language == "" || IsTwoLetterCode(v.language))
            && (d.status.None? ==> v.status == New)
            && (d.status.Some? ==> v.status.Name() == d.status.value)
  {
    CreateIssuesNoneIff(d);
  }

  /** The length bounds of the word measure the text before trimming, so a
      word of blanks passes and is stored as the empty string. */
  lemma {:induction false} BlankWordPasses(d: CreateDraft)
    requires CreateOk(d)
    requires AllBlank(JsWhitespace, d.word)
    ensures ParseCreate(d).Ok? && ParseCreate(d).value.word == ""
  {
    ParseCreateAcceptsExactly(d);
    TrimPadded(d.word, "", "");
    assert d.word + "" + "" == d.word;
  }

  // ---------------------------------------------------------------------------
  // updateVocabularySchema

  /** The body of an update as sent: every field optional. */
  datatype UpdateDraft = UpdateDraft(meaning: Option<string>, context: Option<string>,
                                     status: Option<string>, language: Option<string>)

  datatype UpdateVocabularyInput = UpdateVocabularyInput(
    meaning: Option<string>, context: Option<string>, status: Option<Status>, language: Option<string>)

  function UpdateIssues(d: UpdateDraft): seq<VocabularyIssue> {
    MeaningIssues(d.meaning) + ContextIssues(d.context) + StatusIssues(d.status) + LanguageIssues(d.language)
  }

  /** `updateVocabularySchema.parse`. */
  function ParseUpdate(d: UpdateDraft): (r: Result<UpdateVocabularyInput, seq<VocabularyIssue>>)
    ensures r.Err? ==> |r.error| > 0
  {
    var issues := UpdateIssues(d);
    if |issues| > 0 then Err(issues)
    else Ok(UpdateVocabularyInput(
      if d.meaning.None? then None else Some(Lower(Trim(d.meaning.value))),
      d.context,
      if d.status.None? then None else ParseStatus(d.status.value),
      if d.language.None? then None else Some(Lower(Trim(d.language.value)))))
  }

  /** An update may carry any subset of the four fields: each field sent is
      checked by the same rule as on creation and normalised the same way,
      and a field not sent stays absent (no default status). */
  lemma {:induction false} ParseUpdateAcceptsExactly(d: UpdateDraft)
    ensures ParseUpdate(d).Ok? <==>
              && (d.meaning.Some? ==> 2 <= |d.meaning.value| <= 500)
              && (d.context.Some? ==> 2 <= |d.context.value| <= 500)
              && (d.status.Some? ==> ParseStatus(d.status.value).Some?)
              && (d.language.Some? ==> LanguageOk(d.language.value))
    ensures ParseUpdate(d).Ok? ==>
              var v := ParseUpdate(d).value;
              && (v.meaning.Some? <==> d.meaning.Some?) && (v.context == d.context)
              && (v.status.Some? <==> d.status.Some?) && (v.language.Some? <==> d.language.Some?)
              && (v.meaning.Some? ==> v.meaning.value == Lower(Trim(d.meaning.value)))
              && (v.status.Some? ==> v.status.value.Name() == d.status.value)
              && (v.language.Some? ==> v.language.value == Lower(Trim(d.language.value)))
  {
  }

  /** The update rules are the create rules: a create body that passes
      yields an update body, built from its optional fields, that passes. */
  lemma {:induction false} UpdateRulesAreCreateRules(d: CreateDraft)
    requires CreateOk(d)
    ensures ParseUpdate(UpdateDraft(d.meaning, d.context, d.status, Some(d.language))).Ok?
  {
    ParseUpdateAcceptsExactly(UpdateDraft(d.meaning, d.context, d.status, Some(d.language)));
  }

  // ---------------------------------------------------------------------------
  // findVocabularyQuerySchema

  /** The query string of a listing as sent; `page` and `limit` are what
      `Number` makes of their text, when present. */
  datatype QueryDraft = QueryDraft(
    page: Option<RawNumber>, limit: Option<RawNumber>, search: Option<string>,
    bookId: Option<string>, status: Option<string>, language: Option<string>)

  datatype FindVocabularyQueryInput = FindVocabularyQueryInput(
    page: int, limit: int, search: Option<string>, bookId: Option<string>,
    status: Option<Status>, language: Option<string>)

  /** A coerced number with a default and a range: the default when absent,
      else the number when it is one and in range. */
  function PageIssues(p: Option<RawNumber>): seq<VocabularyIssue> {
    match p
    case None => []
    case Some(NotANumber) => [PageNotANumber]
    case Some(Integer(n)) => Check(n > 0, PageNotPositive)
  }

  function LimitIssues(l: Option<RawNumber>): seq<VocabularyIssue> {
    match l
    case None => []
    case Some(NotANumber) => [LimitNotANumber]
    case Some(Integer(n)) => Check(0 < n <= 100, LimitOutOfRange)
  }

  /** The search text: 1 to 200 characters after trimming. */
  function SearchIssues(s: Option<string>): seq<VocabularyIssue> {
    if s.None? then [] else Check(|Trim(s.value)| >= 1, SearchTooShort) + Check(|Trim(s.value)| <= 200, SearchTooLong)
  }

  function QueryIssues(q: QueryDraft): seq<VocabularyIssue> {
    PageIssues(q.page) + LimitIssues(q.limit) + SearchIssues(q.search)
    + (if q.bookId.None? then [] else Check(IsObjectIdText(q.bookId.value), BookIdShape))
    + StatusIssues(q.status) + LanguageIssues(q.language)
  }

  /** `findVocabularyQuerySchema.parse`. */
  function ParseQuery(q: QueryDraft): (r: Result<FindVocabularyQueryInput, seq<VocabularyIssue>>)
    ensures r.Err? ==> |r.error| > 0
  {
    var issues := QueryIssues(q);
    if |issues| > 0 then Err(issues)
    else Ok(FindVocabularyQueryInput(
      if q.page.None? then 1 else q.page.value.n,
      if q.limit.None? then 20 else q.limit.value.n,
      if q.search.None? then None else Some(Trim(q.search.value)),
      q.bookId,
      if q.status.None? then None else ParseStatus(q.status.value),
      if q.language.None? then None else Some(Lower(Trim(q.language.value)))))
  }

  /** A parsed listing query has a page of at least 1 (1 when absent), a
      limit from 1 to 100 (20 when absent), a trimmed search text of 1 to
      200 characters, an ObjectId as book and a known status; a page or
      limit that is not a number or out of range is refused. */
  lemma {:induction false} ParseQueryBounds(q: QueryDraft)
    ensures ParseQuery(q).Ok? ==>
              var v := ParseQuery(q).value;
              && v.page >= 1 && 1 <= v.limit <= 100
              && (q.page.None? ==> v.page == 1) && (q.limit.None? ==> v.limit == 20)
              && (q.page.Some? ==> q.page.value == Integer(v.page))
              && (q.limit.Some? ==> q.limit.value == Integer(v.limit))
              && (v.search.Some? ==> 1 <= |v.search.value| <= 200 && Trimmed(v.search.value))
              && (v.bookId.Some? ==> IsObjectIdText(v.bookId.value))
              && (v.status.Some? <==> q.status.Some?)
              && (v.language.Some? ==> v.language.value == "" || IsTwoLetterCode(v.language.value))
    ensures q.page == Some(NotANumber) || q.limit == Some(NotANumber) ==> ParseQuery(q).Err?
    ensures (exists n :: q.page == Some(Integer(n)) && n < 1) ==> ParseQuery(q).Err?
    ensures (exists n :: q.limit == Some(Integer(n)) && (n < 1 || n > 100)) ==> ParseQuery(q).Err?
  {
    if ParseQuery(q).Ok? {
      QueryAccepted(q);
    }
  }

  /** What an accepted query carries, field by field. */
  lemma {:induction false} QueryAccepted(q: QueryDraft)
    requires ParseQuery(q).Ok?
    ensures var v := ParseQuery(q).value;
            && v.page >= 1 && 1 <= v.limit <= 100
            && (q.page.None? ==> v.page == 1) && (q.limit.None? ==> v.limit == 20)
            && (q.page.Some? ==> q.page.value == Integer(v.page))
            && (q.limit.Some? ==> q.limit.value == Integer(v.limit))
            && (v.search.Some? ==> 1 <= |v.search.value| <= 200 && Trimmed(v.search.value))
            && (v.bookId.Some? ==> IsObjectIdText(v.bookId.value))
            && (v.status.Some? <==> q.status.Some?)
            && (v.language.Some? ==> v.language.value == "" || IsTwoLetterCode(v.language.value))
  {
    QueryIssuesNone(q);
    if q.search.Some? {
      TrimIsTrimmed(q.search.value);
    }
  }

  /** No issue at all means no issue from any field. */
  lemma {:induction false} QueryIssuesNone(q: QueryDraft)
    requires |QueryIssues(q)| == 0
    ensures |PageIssues(q.page)| == 0 && |LimitIssues(q.limit)| == 0 && |SearchIssues(q.search)| == 0
    ensures q.bookId.Some? ==> IsObjectIdText(q.bookId.value)
    ensures |StatusIssues(q.status)| == 0 && |LanguageIssues(q.language)| == 0
  {
  }
}
