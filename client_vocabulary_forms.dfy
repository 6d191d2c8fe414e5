/** The browser's vocabulary forms: the "add a word" form with its optional
    translation and note, and the search parameters of the vocabulary
    page. */
module ClientVocabularyForms {
  import opened Wrappers
  import opened Text
  import opened Paging

  // ---------------------------------------------------------------------------
  // addVocabularyFormSchema

  datatype FormIssue = TranslationTooLong | TranslationTooShort | NoteTooLong | NoteTooShort {
    function Message(): string {
      match this
      case TranslationTooLong => "Translation must be at most 500 characters"
      case TranslationTooShort => "Translation must be at least 2 characters"
      case NoteTooLong => "Note must be at most 500 characters"
      case NoteTooShort => "Note must be at least 2 characters"
    }
  }

  /** One optional text field: at most 500 characters as typed; then
      trimmed, with nothing left meaning absent; what is left must be at
      least two characters. A field over the maximum is refused before the
      trim runs. */
  function OptionalText(raw: Option<string>, tooLong: FormIssue, tooShort: FormIssue): Result<Option<string>, FormIssue> {
    if raw.None? then Ok(None)
    else if |raw.value| > 500 then Err(tooLong)
    else
      var t := Trim(raw.value);
      if t == "" then Ok(None)
      else if |t| < 2 then Err(tooShort)
      else Ok(Some(t))
  }

  datatype AddVocabularyDraft = AddVocabularyDraft(meaning: Option<string>, context: Option<string>)

  datatype AddVocabularyInput = AddVocabularyInput(meaning: Option<string>, context: Option<string>)

  function Issue(r: Result<Option<string>, FormIssue>): seq<FormIssue> {
    if r.Err? then [r.error] else []
  }

  /** `addVocabularyFormSchema.parse`. */
  function ParseAddVocabulary(d: AddVocabularyDraft): Result<AddVocabularyInput, seq<FormIssue>> {
    var meaning := OptionalText(d.meaning, TranslationTooLong, TranslationTooShort);
    var context := OptionalText(d.context, NoteTooLong, NoteTooShort);
    if meaning.Err? || context.Err? then Err(Issue(meaning) + Issue(context))
    else Ok(AddVocabularyInput(meaning.value, context.value))
  }

  /** A field is accepted exactly when it is absent, or at most 500
      characters and, once trimmed, empty or at least two characters; a
      blank field becomes absent and any other is kept trimmed. */
  lemma {:induction false} OptionalTextMeaning(raw: Option<string>, tooLong: FormIssue, tooShort: FormIssue)
    ensures var r := OptionalText(raw, tooLong, tooShort);
            && (r.Ok? <==> raw.None? || (|raw.value| <= 500 && (Trim(raw.value) == "" || |Trim(raw.value)| >= 2)))
            && (r.Ok? && raw.Some? ==> (r.value.None? <==> AllBlank(JsWhitespace, raw.value)))
            && (r.Ok? && r.value.Some? ==> r.value.value == Trim(raw.value) && 2 <= |r.value.value| <= 500)
            && (r.Err? ==> r.error == (if |raw.value| > 500 then tooLong else tooShort))
  {
    if raw.Some? {
      TrimAllBlank(raw.value);
    }
  }

  /** A field the form accepts: absent, or at most 500 characters that trim
      to nothing or to at least two characters. */
  predicate FieldOk(raw: Option<string>) {
    raw.None? || (|raw.value| <= 500 && (Trim(raw.value) == "" || |Trim(raw.value)| >= 2))
  }

  /** What an accepted field becomes: absent when it was absent or blank,
      its trimmed text otherwise. */
  function Kept(raw: Option<string>): Option<string> {
    if raw.None? || AllBlank(JsWhitespace, raw.value) then None else Some(Trim(raw.value))
  }

  /** The form is accepted exactly when both fields are; an accepted form
      keeps each field trimmed or drops it when blank, and a refused one
      reports the translation's issue before the note's, one per refused
      field. */
  lemma {:induction false} AddVocabularyAcceptsExactly(d: AddVocabularyDraft)
    ensures var r := ParseAddVocabulary(d);
            && (r.Ok? <==> FieldOk(d.meaning) && FieldOk(d.context))
            && (r.Ok? ==> r.value == AddVocabularyInput(Kept(d.meaning), Kept(d.context)))
            && (r.Err? ==> |r.error| == (if FieldOk(d.meaning) then 0 else 1) + (if FieldOk(d.context) then 0 else 1)
                           && (!FieldOk(d.meaning) ==> r.error[0] in {TranslationTooLong, TranslationTooShort})
                           && (!FieldOk(d.context) ==> r.error[|r.error| - 1] in {NoteTooLong, NoteTooShort}))
  {
    OptionalTextMeaning(d.meaning, TranslationTooLong, TranslationTooShort);
    OptionalTextMeaning(d.context, NoteTooLong, NoteTooShort);
  }

  /** Trimming leaves nothing exactly when the text is all blanks. */
  lemma {:induction false} TrimAllBlank(s: string)
    ensures Trim(s) == "" <==> AllBlank(JsWhitespace, s)
  {
    if AllBlank(JsWhitespace, s) {
      TrimPadded(s, "", "");
      assert s + "" + "" == s;
    }
    if Trim(s) == "" {
      var t := TrimStart(s);
      TrimStartDropsBlanks(s);
      TrimEndDropsBlanks(t);
      assert |t| == 0;
      assert forall i :: 0 <= i < |s| ==> IsJsSpace(s[i]);
    }
  }

  /** A single character left after trimming is refused, however much
      blank surrounds it. */
  lemma {:induction false} SingleCharacterRefused(pre: string, c: char, post: string)
    requires AllBlank(JsWhitespace, pre) && AllBlank(JsWhitespace, post) && !IsJsSpace(c)
    requires |pre| + |post| < 500
    ensures ParseAddVocabulary(AddVocabularyDraft(Some(pre + [c] + post), None)) == Err([TranslationTooShort])
  {
    TrimPadded(pre, [c], post);
    assert Issue(OptionalText(None, NoteTooLong, NoteTooShort)) == [];
    assert [TranslationTooShort] + [] == [TranslationTooShort];
  }

  // ---------------------------------------------------------------------------
  // vocabularySearchSchema

  datatype SearchIssue = PageInvalid | LimitInvalid | SearchTooLong | LanguageInvalid {
    function Message(): Option<string> {
      if this == LanguageInvalid then Some("Language must be ISO 639-1 code") else None
    }
  }

  /** The parameters as read from the address; a page or limit is what
      `Number` made of it, `None` when it is missing. */
  datatype VocabularySearchDraft = VocabularySearchDraft(page: Option<RawNumber>, limit: Option<RawNumber>,
                                                         search: Option<string>, language: Option<string>)

  datatype VocabularySearchParams = VocabularySearchParams(page: int, limit: int, search: Option<string>,
                                                           language: Option<string>)

  /** `z.coerce.number().int().default(1).refine(v => v > 0)`. */
  function PageParam(raw: Option<RawNumber>): Result<int, SearchIssue> {
    if raw.None? then Ok(1)
    else if raw.value.Integer? && raw.value.n > 0 then Ok(raw.value.n)
    else Err(PageInvalid)
  }

  /** `z.coerce.number().int().default(24).refine(v => v > 0 && v <= 100)`. */
  function LimitParam(raw: Option<RawNumber>): Result<int, SearchIssue> {
    if raw.None? then Ok(24)
    else if raw.value.Integer? && 0 < raw.value.n <= 100 then Ok(raw.value.n)
    else Err(LimitInvalid)
  }

  /** `z.string().trim().max(200)`: empty is allowed. */
  function SearchParam(raw: Option<string>): Result<Option<string>, SearchIssue> {
    if raw.None? then Ok(None)
    else
      var t := Trim(raw.value);
      if |t| <= 200 then Ok(Some(t)) else Err(SearchTooLong)
  }

  /** `.trim()`, lowercased, then two letters. */
  function LanguageParam(raw: Option<string>): Result<Option<string>, SearchIssue> {
    if raw.None? then Ok(None)
    else
      var l := Lower(Trim(raw.value));
      if IsTwoLetterCode(l) then Ok(Some(l)) else Err(LanguageInvalid)
  }

  function IssueOf<T>(r: Result<T, SearchIssue>): seq<SearchIssue> {
    if r.Err? then [r.error] else []
  }

  /** `vocabularySearchSchema.parse`. */
  function ParseVocabularySearch(d: VocabularySearchDraft): Result<VocabularySearchParams, seq<SearchIssue>> {
    var page := PageParam(d.page);
    var limit := LimitParam(d.limit);
    var search := SearchParam(d.search);
    var language := LanguageParam(d.language);
    if page.Err? || limit.Err? || search.Err? || language.Err?
    then Err(IssueOf(page) + IssueOf(limit) + IssueOf(search) + IssueOf(language))
    else Ok(VocabularySearchParams(page.value, limit.value, search.value, language.value))
  }

  /** The address is accepted exactly when the page, if given, is a
      positive whole number, the limit, if given, a whole number from 1 to
      100, the search at most 200 characters once trimmed and the language,
      if given, two letters once trimmed and lowercased; missing page and
      limit read as 1 and 24. Unlike the catalogue's, unusable numbers are
      refused, not replaced. */
  lemma {:induction false} VocabularySearchAcceptsExactly(d: VocabularySearchDraft)
    ensures ParseVocabularySearch(d).Ok? <==>
              && (d.page.Some? ==> d.page.value.Integer? && d.page.value.n >= 1)
              && (d.limit.Some? ==> d.limit.value.Integer? && 1 <= d.limit.value.n <= 100)
              && (d.search.Some? ==> |Trim(d.search.value)| <= 200)
              && (d.language.Some? ==> IsTwoLetterCode(Lower(Trim(d.language.value))))
    ensures ParseVocabularySearch(d).Ok? ==>
              var p := ParseVocabularySearch(d).value;
              && p.page == (if d.page.None? then 1 else d.page.value.n) && p.page >= 1
              && p.limit == (if d.limit.None? then 24 else d.limit.value.n) && 1 <= p.limit <= 100
              && p.search == (if d.search.None? then None else Some(Trim(d.search.value)))
              && (p.language.Some? <==> d.language.Some?)
              && (p.language.Some? ==> p.language.value == Lower(Trim(d.language.value)) && IsTwoLetterCode(p.language.value))
  {
  }

  /** Whatever else is sent, an empty language is refused. */
  lemma {:induction false} EmptyLanguageRefused(d: VocabularySearchDraft)
    requires d.language == Some("")
    ensures ParseVocabularySearch(d).Err? && LanguageInvalid in ParseVocabularySearch(d).error
  {
    assert Trim("") == "" && Lower("") == "";
  }
}
