/** The search parameters of the catalogue page in the browser: the page
    and the page size fall back to 1 and 20 when unusable, the other
    parameters are optional and must be well formed. */
module ClientBookSearch {
  import opened Wrappers
  import opened Text
  import opened Paging

  /** The parameters as read from the address; a number that is missing,
      not a number or not whole is `None` or `NotANumber`. */
  datatype BookSearchDraft = BookSearchDraft(page: Option<RawNumber>, limit: Option<RawNumber>,
                                             search: Option<string>, language: Option<string>,
                                             sortBy: Option<string>, sortOrder: Option<string>)

  datatype BookSearchParams = BookSearchParams(page: int, limit: int, search: Option<string>,
                                               language: Option<string>, sortBy: Option<string>,
                                               sortOrder: Option<string>)

  datatype SearchIssue = SearchTooShort | SearchTooLong | LanguageInvalid | SortByInvalid | SortOrderInvalid

  /** `z.number().int().min(1).catch(1)`. */
  function PageOrFirst(raw: Option<RawNumber>): (p: int)
    ensures p >= 1
    ensures raw.Some? && raw.value.Integer? && raw.value.n >= 1 ==> p == raw.value.n
    ensures !(raw.Some? && raw.value.Integer? && raw.value.n >= 1) ==> p == 1
  {
    if raw.Some? && raw.value.Integer? && raw.value.n >= 1 then raw.value.n else 1
  }

  /** `z.number().int().min(1).max(100).catch(20)`. */
  function LimitOrDefault(raw: Option<RawNumber>): (l: int)
    ensures 1 <= l <= 100
    ensures raw.Some? && raw.value.Integer? && 1 <= raw.value.n <= 100 ==> l == raw.value.n
    ensures !(raw.Some? && raw.value.Integer? && 1 <= raw.value.n <= 100) ==> l == 20
  {
    if raw.Some? && raw.value.Integer? && 1 <= raw.value.n <= 100 then raw.value.n else 20
  }

  function Check(ok: bool, issue: SearchIssue): seq<SearchIssue> {
    if ok then [] else [issue]
  }

  /** `.trim().min(1).max(100)`: the bounds apply to the trimmed text. */
  function SearchIssues(search: Option<string>): seq<SearchIssue> {
    if search.None? then []
    else
      var n := |Trim(search.value)|;
      Check(n >= 1, SearchTooShort) + Check(n <= 100, SearchTooLong)
  }

  /** `.trim().toLowerCase()`. */
  function Normalized(s: string): string {
    Lower(Trim(s))
  }

  function LanguageIssues(language: Option<string>): seq<SearchIssue> {
    if language.None? then [] else Check(IsTwoLetterCode(Normalized(language.value)), LanguageInvalid)
  }

  function EnumIssues(sortBy: Option<string>, sortOrder: Option<string>): seq<SearchIssue> {
    (if sortBy.None? then [] else Check(sortBy.value == "wordCount", SortByInvalid))
    + (if sortOrder.None? then [] else Check(sortOrder.value == "asc" || sortOrder.value == "desc", SortOrderInvalid))
  }

  function MapOpt(s: Option<string>, f: string -> string): Option<string> {
    if s.None? then None else Some(f(s.value))
  }

  /** `bookSearchSchema.parse`. */
  function ParseBookSearch(d: BookSearchDraft): Result<BookSearchParams, seq<SearchIssue>> {
    var issues := SearchIssues(d.search) + LanguageIssues(d.language) + EnumIssues(d.sortBy, d.sortOrder);
    if issues != [] then Err(issues)
    else Ok(BookSearchParams(PageOrFirst(d.page), LimitOrDefault(d.limit), MapOpt(d.search, Trim),
                             MapOpt(d.language, Normalized), d.sortBy, d.sortOrder))
  }

  /** The parameters are accepted exactly when the optional ones that are
      present are well formed; page and size never cause a refusal. */
  lemma {:induction false} ParseBookSearchAcceptsExactly(d: BookSearchDraft)
    ensures ParseBookSearch(d).Ok? <==>
              && (d.search.Some? ==> 1 <= |Trim(d.search.value)| <= 100)
              && (d.language.Some? ==> IsTwoLetterCode(Normalized(d.language.value)))
              && (d.sortBy.Some? ==> d.sortBy.value == "wordCount")
              && (d.sortOrder.Some? ==> d.sortOrder.value == "asc" || d.sortOrder.value == "desc")
  {
    var a := SearchIssues(d.search);
    var b := LanguageIssues(d.language);
    var c := EnumIssues(d.sortBy, d.sortOrder);
    assert (a + b + c == []) == (a == [] && b == [] && c == []) by {
      assert |a + b + c| == |a| + |b| + |c|;
    }
  }

  /** What an accepted address yields: the trimmed search, the trimmed
      lowercased language and a page and size in range. */
  lemma {:induction false} ParsedBookSearch(d: BookSearchDraft)
    requires ParseBookSearch(d).Ok?
    ensures var p := ParseBookSearch(d).value;
            && p.page >= 1 && 1 <= p.limit <= 100
            && (p.search.Some? <==> d.search.Some?)
            && (p.search.Some? ==> p.search.value == Trim(d.search.value) && 1 <= |p.search.value| <= 100)
            && (p.language.Some? <==> d.language.Some?)
            && (p.language.Some? ==> p.language.value == Lower(Trim(d.language.value)) && IsTwoLetterCode(p.language.value))
            && p.sortBy == d.sortBy && p.sortOrder == d.sortOrder
  {
    ParseBookSearchAcceptsExactly(d);
  }

  /** An unusable page or size never refuses the address: the same address
      with any page and size is accepted or refused alike. */
  lemma {:induction false} PagingNeverRefuses(d: BookSearchDraft, page: Option<RawNumber>, limit: Option<RawNumber>)
    ensures ParseBookSearch(d).Ok? == ParseBookSearch(d.(page := page, limit := limit)).Ok?
    ensures ParseBookSearch(d.(page := None, limit := Some(NotANumber))) ==
              if ParseBookSearch(d).Ok?
              then Ok(ParseBookSearch(d).value.(page := 1, limit := 20))
              else ParseBookSearch(d)
  {
  }
}
