/** The Gutenberg import script: it reads the list of book ids, skips the
    ids a previous run imported, and imports the rest in batches. Each import
    fetches the Gutendex record, downloads the plain-text edition, strips the
    Project Gutenberg header and footer, counts the words and validates the
    book; after each batch the log of imported and failed ids is updated. The
    network, the clock-free random file name and the file system are
    parameters (a `Catalogue`). */
module ImportBooks {
  import opened Wrappers
  import opened Text
  import opened Paging
  import opened BookSchema

  // ---------------------------------------------------------------------------
  // the id list

  /** `.map((l) => l.trim()).filter(Boolean)`: the trimmed pieces that are
      not empty, in their order. */
  function TrimmedNonEmpty(pieces: seq<string>): (r: seq<string>)
    ensures forall k :: 0 <= k < |r| ==> r[k] != "" && Trimmed(r[k])
    decreases |pieces|
  {
    if pieces == [] then []
    else
      var t := Trim(pieces[0]);
      var rest := TrimmedNonEmpty(pieces[1..]);
      if t == "" then rest
      else
        TrimIsTrimmed(pieces[0]);
        ConsTrimmed(t, rest);
        [t] + rest
  }

  lemma {:induction false} ConsTrimmed(t: string, rest: seq<string>)
    requires t != "" && Trimmed(t)
    requires forall k :: 0 <= k < |rest| ==> rest[k] != "" && Trimmed(rest[k])
    ensures forall k :: 0 <= k < |[t] + rest| ==> ([t] + rest)[k] != "" && Trimmed(([t] + rest)[k])
  {
    forall k | 0 <= k < |[t] + rest|
      ensures ([t] + rest)[k] != "" && Trimmed(([t] + rest)[k])
    {
      if k > 0 {
        assert ([t] + rest)[k] == rest[k - 1];
      }
    }
  }

  /** A piece survives exactly when it is not blank, and then trimmed. */
  lemma {:induction false} TrimmedNonEmptyMembers(pieces: seq<string>, x: string)
    ensures x in TrimmedNonEmpty(pieces) <==> x != "" && exists p :: p in pieces && Trim(p) == x
    decreases |pieces|
  {
    if pieces != [] {
      TrimmedNonEmptyMembers(pieces[1..], x);
      SurvivorCameFromPiece(pieces, x);
      PieceSurvives(pieces, x);
    }
  }

  lemma {:induction false} SurvivorCameFromPiece(pieces: seq<string>, x: string)
    requires pieces != []
    requires x in TrimmedNonEmpty(pieces[1..]) ==> x != "" && exists p :: p in pieces[1..] && Trim(p) == x
    ensures x in TrimmedNonEmpty(pieces) ==> x != "" && exists p :: p in pieces && Trim(p) == x
  {
    var tail := pieces[1..];
    TrimmedNonEmptyStep(pieces);
    if x in TrimmedNonEmpty(pieces) {
      if x in TrimmedNonEmpty(tail) {
        var p :| p in tail && Trim(p) == x;
        InTail(pieces, p);
      } else {
        SurvivorIsHead(Trim(pieces[0]), TrimmedNonEmpty(tail), x);
        InTail(pieces, pieces[0]);
      }
    }
  }

  /** `TrimmedNonEmpty` unfolded once. */
  lemma {:induction false} TrimmedNonEmptyStep(pieces: seq<string>)
    requires pieces != []
    ensures var t := Trim(pieces[0]);
            TrimmedNonEmpty(pieces) == if t == "" then TrimmedNonEmpty(pieces[1..]) else [t] + TrimmedNonEmpty(pieces[1..])
  {
  }

  lemma {:induction false} InTail(pieces: seq<string>, p: string)
    requires pieces != [] && (p in pieces[1..] || p == pieces[0])
    ensures p in pieces
  {
    if p != pieces[0] {
      var k :| 0 <= k < |pieces[1..]| && pieces[1..][k] == p;
      assert pieces[k + 1] == p;
    }
  }

  /** What is kept but not kept from the rest is the first piece, trimmed. */
  lemma {:induction false} SurvivorIsHead(t: string, rest: seq<string>, x: string)
    requires x in (if t == "" then rest else [t] + rest) && x !in rest
    ensures x == t && t != ""
  {
    if t == "" {
      assert false;
    }
  }

  lemma {:induction false} PieceSurvives(pieces: seq<string>, x: string)
    requires pieces != []
    requires (x != "" && exists p :: p in pieces[1..] && Trim(p) == x) ==> x in TrimmedNonEmpty(pieces[1..])
    ensures (x != "" && exists p :: p in pieces && Trim(p) == x) ==> x in TrimmedNonEmpty(pieces)
  {
    TrimmedNonEmptyStep(pieces);
    if x != "" && exists p :: p in pieces && Trim(p) == x {
      var p :| p in pieces && Trim(p) == x;
      if p != pieces[0] {
        InRest(pieces, p);
      }
    }
  }

  lemma {:induction false} InRest(pieces: seq<string>, p: string)
    requires p in pieces && p != pieces[0]
    ensures p in pieces[1..]
  {
    var k :| 0 <= k < |pieces| && pieces[k] == p;
    assert pieces[1..][k - 1] == p;
  }

  lemma {:induction false} TrimmedNonEmptyAppend(p: seq<string>, q: seq<string>)
    ensures TrimmedNonEmpty(p + q) == TrimmedNonEmpty(p) + TrimmedNonEmpty(q)
    decreases |p|
  {
    if p == [] {
      assert p + q == q;
    } else {
      assert (p + q)[0] == p[0] && (p + q)[1..] == p[1..] + q;
      TrimmedNonEmptyAppend(p[1..], q);
    }
  }

  /** `readIds` on the text of the id file: its lines, trimmed, without the
      blank ones. */
  function ReadIds(raw: string): (ids: seq<string>)
    ensures forall k :: 0 <= k < |ids| ==> ids[k] != "" && Trimmed(ids[k])
  {
    TrimmedNonEmpty(Split(raw, "\n"))
  }

  /** The ids come in file order: the ids of a file are the ids of its part
      before a line break followed by those of its part after it. */
  lemma {:induction false} ReadIdsInFileOrder(a: string, b: string)
    ensures ReadIds(a + "\n" + b) == ReadIds(a) + ReadIds(b)
  {
    SplitAround(a, '\n', b);
    TrimmedNonEmptyAppend(Split(a, "\n"), Split(b, "\n"));
  }

  /** An id is read exactly when some line, trimmed, is that id. */
  lemma {:induction false} ReadIdsAreTrimmedLines(raw: string, x: string)
    ensures x in ReadIds(raw) <==> x != "" && exists line :: line in Split(raw, "\n") && Trim(line) == x
  {
    TrimmedNonEmptyMembers(Split(raw, "\n"), x);
  }

  // ---------------------------------------------------------------------------
  // stripping the Project Gutenberg header and footer

  const StartMarker: string := "*** START OF"
  const EndMarker: string := "*** END OF"

  /** Where the line holding position `k` ends: the next line terminator, or
      the end of the text. */
  function LineEnd(text: string, k: nat): (e: nat)
    requires k <= |text|
    ensures k <= e <= |text|
    ensures forall m :: k <= m < e ==> !IsLineTerminator(text[m])
    ensures e < |text| ==> IsLineTerminator(text[e])
    decreases |text| - k
  {
    if k == |text| || IsLineTerminator(text[k]) then k else LineEnd(text, k + 1)
  }

  predicate StarsAt(text: string, j: int) {
    0 <= j && j + 3 <= |text| && text[j] == '*' && text[j + 1] == '*' && text[j + 2] == '*'
  }

  /** The last "***" lying wholly in `text[lo..hi]`. */
  function LastStars(text: string, lo: nat, hi: nat): (r: Option<nat>)
    requires lo <= hi <= |text|
    ensures r.Some? ==> lo <= r.value && r.value + 3 <= hi && StarsAt(text, r.value)
    ensures r.Some? ==> forall j :: r.value < j && j + 3 <= hi ==> !StarsAt(text, j)
    ensures r.None? ==> forall j :: lo <= j && j + 3 <= hi ==> !StarsAt(text, j)
    decreases hi
  {
    if hi < lo + 3 then None
    else if StarsAt(text, hi - 3) then Some(hi - 3)
    else LastStars(text, lo, hi - 1)
  }

  /** The end of the match of `marker.*\*\*\*` that starts at `i`, if there
      is one: the greedy `.*` runs to the end of the line and backs off to
      the last "***" on it. */
  function MatchEnd(text: string, i: nat, marker: string): (r: Option<nat>)
    requires i <= |text|
    ensures r.Some? ==> i + |marker| + 3 <= r.value <= |text|
  {
    if marker <= text[i..] then
      var from := i + |marker|;
      match LastStars(text, from, LineEnd(text, from))
      case Some(j) => Some(j + 3)
      case None => None
    else None
  }

  /** `text.match(...)`: the leftmost position at or after `i` where a match
      starts, and where that match ends. */
  function FirstMatch(text: string, marker: string, i: nat): (r: Option<(nat, nat)>)
    requires i <= |text|
    ensures r.Some? ==> i <= r.value.0 <= |text| && MatchEnd(text, r.value.0, marker) == Some(r.value.1)
    ensures r.Some? ==> forall k: nat :: i <= k < r.value.0 ==> MatchEnd(text, k, marker).None?
    ensures r.None? ==> forall k: nat :: i <= k <= |text| ==> MatchEnd(text, k, marker).None?
    decreases |text| - i
  {
    var here := MatchEnd(text, i, marker);
    if here.Some? then Some((i, here.value))
    else if i == |text| then None
    else FirstMatch(text, marker, i + 1)
  }

  /** Where the body starts: just after the first complete START line, or
      at the beginning. */
  function BodyStart(text: string): (s: nat)
    ensures s <= |text|
  {
    match FirstMatch(text, StartMarker, 0)
    case Some((_, e)) => e
    case None => 0
  }

  /** Where the body ends: where the first complete END line starts, or at
      the end. */
  function BodyEnd(text: string): (e: nat)
    ensures e <= |text|
  {
    match FirstMatch(text, EndMarker, 0)
    case Some((st, _)) => st
    case None => |text|
  }

  /** `cleanGutenbergText`: the text between the markers, trimmed. A start
      past the end gives the empty slice, as `String.prototype.slice` does. */
  function CleanGutenbergText(text: string): (r: string)
    ensures Trimmed(r) && |r| <= |text|
  {
    var s := BodyStart(text);
    var e := BodyEnd(text);
    var body := if s <= e then text[s..e] else "";
    TrimIsTrimmed(body);
    Trim(body)
  }

  /** A text with neither marker line is only trimmed. */
  lemma {:induction false} CleanWithoutMarkers(text: string)
    requires forall k :: 0 <= k <= |text| ==> MatchEnd(text, k, StartMarker).None?
    requires forall k :: 0 <= k <= |text| ==> MatchEnd(text, k, EndMarker).None?
    ensures CleanGutenbergText(text) == Trim(text)
  {
    assert FirstMatch(text, StartMarker, 0).None?;
    assert FirstMatch(text, EndMarker, 0).None?;
    assert text[0..|text|] == text;
  }

  /** When both marker lines are found, start before end, the result is the
      text strictly between the end of the START line's match and the start of
      the END line's match, trimmed; the marker lines themselves are gone. */
  lemma {:induction false} CleanKeepsTextBetweenMarkers(text: string, s0: nat, e0: nat, s1: nat, e1: nat)
    requires s0 <= |text| && s1 <= |text|
    requires MatchEnd(text, s0, StartMarker) == Some(e0)
    requires forall k :: 0 <= k < s0 ==> MatchEnd(text, k, StartMarker).None?
    requires MatchEnd(text, s1, EndMarker) == Some(e1)
    requires forall k :: 0 <= k < s1 ==> MatchEnd(text, k, EndMarker).None?
    requires e0 <= s1
    ensures CleanGutenbergText(text) == Trim(text[e0..s1])
  {
    FirstMatchIsLeftmost(text, StartMarker, s0);
    FirstMatchIsLeftmost(text, EndMarker, s1);
  }

  lemma {:induction false} FirstMatchIsLeftmost(text: string, marker: string, s: nat)
    requires s <= |text| && MatchEnd(text, s, marker).Some?
    requires forall k :: 0 <= k < s ==> MatchEnd(text, k, marker).None?
    ensures FirstMatch(text, marker, 0) == Some((s, MatchEnd(text, s, marker).value))
  {
    var r := FirstMatch(text, marker, 0);
    assert r.Some?;
    assert r.value.0 == s;
  }

  // ---------------------------------------------------------------------------
  // counting words

  /** `countWords`: collapse the whitespace runs to single spaces, trim, and
      count the pieces between the spaces. */
  function CountWords(text: string): nat {
    var trimmed := Trim(Collapse(text));
    if trimmed == "" then 0 else |Split(trimmed, " ")|
  }

  /** The count is the number of maximal runs of non-whitespace characters. */
  lemma {:induction false} CountWordsIsWordCount(text: string)
    ensures CountWords(text) == |Words(JsWhitespace, text)|
  {
    var ws := Words(JsWhitespace, text);
    CollapseTrimIsJoinedWords(text);
    WordsAreNonBlank(JsWhitespace, text);
    JoinedWordsTrimmed(ws);
    if ws != [] {
      SplitJoin(ws, ' ');
      assert " " == [' '];
    }
  }

  // ---------------------------------------------------------------------------
  // choosing the plain-text edition

  /** `/^text\/plain/i`: the key starts with "text/plain" in any letter case. */
  predicate IsTextPlainKey(key: string) {
    |key| >= 10 && Lower(key[..10]) == "text/plain"
  }

  /** The position of the first plain-text key at or after `i`, or the end. */
  function TxtIndex(formats: seq<(string, string)>, i: nat): (k: nat)
    requires i <= |formats|
    ensures i <= k <= |formats|
    ensures k < |formats| ==> IsTextPlainKey(formats[k].0)
    ensures forall j :: i <= j < k ==> !IsTextPlainKey(formats[j].0)
    decreases |formats| - i
  {
    if i == |formats| || IsTextPlainKey(formats[i].0) then i else TxtIndex(formats, i + 1)
  }

  /** The URL of the first format, in entry order, whose key is plain text. */
  function TxtUrl(formats: seq<(string, string)>): (r: Option<string>)
    ensures r.None? <==> forall k :: 0 <= k < |formats| ==> !IsTextPlainKey(formats[k].0)
    ensures r.Some? ==> exists k :: && 0 <= k < |formats| && IsTextPlainKey(formats[k].0)
                                   && r.value == formats[k].1
                                   && forall j :: 0 <= j < k ==> !IsTextPlainKey(formats[j].0)
  {
    var k := TxtIndex(formats, 0);
    if k < |formats| then Some(formats[k].1) else None
  }

  /** `getTxtUrl`: scans the entries in order and returns at the first
      plain-text key. */
  method GetTxtUrl(formats: seq<(string, string)>) returns (r: Option<string>)
    ensures r == TxtUrl(formats)
  {
    var i := 0;
    while i < |formats|
      invariant 0 <= i <= |formats|
      invariant TxtIndex(formats, i) == TxtIndex(formats, 0)
    {
      var (key, url) := formats[i];
      if |key| >= 10 && Lower(key[..10]) == "text/plain" {
        return Some(url);
      }
      i := i + 1;
    }
    return None;
  }

  // ---------------------------------------------------------------------------
  // the author's name

  /** The comma-separated parts of a name, trimmed, blank parts dropped. */
  function CommaParts(name: string): seq<string> {
    TrimmedNonEmpty(Split(name, ","))
  }

  /** The name holds a comma and at least two non-blank comma-separated
      parts. */
  predicate IsLastFirst(name: string) {
    Contains(name, ",") && |CommaParts(name)| >= 2
  }

  /** `${rest} ${last}` with its whitespace runs collapsed, then trimmed. */
  function Swapped(parts: seq<string>): string
    requires |parts| >= 2
  {
    Trim(Collapse(Join(parts[1..], " ") + " " + parts[0]))
  }

  /** `formatAuthor`: "Last, First" becomes "First Last", whitespace runs
      become single spaces, and a missing or blank name is "Unknown". */
  function FormatAuthor(raw: Option<string>): string {
    if raw.None? || raw.value == "" then "Unknown"
    else
      var name := Trim(raw.value);
      if name == "" then "Unknown"
      else if IsLastFirst(name) then Swapped(CommaParts(name))
      else Trim(Collapse(name))
  }

  /** A missing or blank name gives "Unknown". */
  lemma {:induction false} FormatAuthorUnknown(raw: Option<string>)
    requires raw.None? || Trim(raw.value) == ""
    ensures FormatAuthor(raw) == "Unknown"
  {
  }

  /** A trimmed non-empty string has at least one word. */
  lemma {:induction false} TrimmedHasWords(s: string)
    requires s != "" && Trimmed(s)
    ensures Words(JsWhitespace, s) != []
  {
    NoWordsIffAllBlank(JsWhitespace, s);
    assert !IsBlank(JsWhitespace, s[0]);
  }

  /** The words of `first`, then those of `last`, single-spaced. */
  lemma {:induction false} SwappedName(first: string, last: string)
    requires last != "" && Trimmed(last)
    ensures var r := Trim(Collapse(first + " " + last));
            && r == Join(Words(JsWhitespace, first) + Words(JsWhitespace, last), " ")
            && r != "" && Trimmed(r)
  {
    var s := first + " " + last;
    assert s == first + [' '] + last;
    WordsAroundBlank(JsWhitespace, first, ' ', last);
    CollapseTrimIsJoinedWords(s);
    TrimmedHasWords(last);
    WordsAreNonBlank(JsWhitespace, s);
    JoinedWordsTrimmed(Words(JsWhitespace, s));
  }

  /** "Last, First Middle" is written as the words of everything after the
      first comma, then the words before it, separated by single spaces. */
  lemma {:induction false} FormatAuthorSwapsNames(raw: Option<string>)
    requires raw.Some? && Trim(raw.value) != ""
    requires IsLastFirst(Trim(raw.value))
    ensures var parts := CommaParts(Trim(raw.value));
            && FormatAuthor(raw) == Join(Words(JsWhitespace, Join(parts[1..], " ")) + Words(JsWhitespace, parts[0]), " ")
            && FormatAuthor(raw) != "" && Trimmed(FormatAuthor(raw))
  {
    var parts := CommaParts(Trim(raw.value));
    FormatAuthorOfLastFirst(raw);
    assert parts[0] != "" && Trimmed(parts[0]);
    SwappedName(Join(parts[1..], " "), parts[0]);
  }

  /** `formatAuthor` on a "Last, First" name. */
  lemma {:induction false} FormatAuthorOfLastFirst(raw: Option<string>)
    requires raw.Some? && Trim(raw.value) != "" && IsLastFirst(Trim(raw.value))
    ensures FormatAuthor(raw) == Swapped(CommaParts(Trim(raw.value)))
  {
    assert |Trim(raw.value)| <= |raw.value|;
  }

  /** `formatAuthor` on any other name that is not blank. */
  lemma {:induction false} FormatAuthorOfOther(raw: Option<string>)
    requires raw.Some? && Trim(raw.value) != "" && !IsLastFirst(Trim(raw.value))
    ensures FormatAuthor(raw) == Trim(Collapse(Trim(raw.value)))
  {
    assert |Trim(raw.value)| <= |raw.value|;
  }

  /** Any other name is its words separated by single spaces. */
  lemma {:induction false} FormatAuthorCollapses(raw: Option<string>)
    requires raw.Some? && Trim(raw.value) != ""
    requires !IsLastFirst(Trim(raw.value))
    ensures FormatAuthor(raw) == Join(Words(JsWhitespace, Trim(raw.value)), " ")
    ensures FormatAuthor(raw) != "" && Trimmed(FormatAuthor(raw))
  {
    FormatAuthorOfOther(raw);
    TrimIsTrimmed(raw.value);
    CollapsedName(Trim(raw.value));
  }

  /** A trimmed name that is not empty collapses to its words,
      single-spaced. */
  lemma {:induction false} CollapsedName(name: string)
    requires name != "" && Trimmed(name)
    ensures var r := Trim(Collapse(name));
            r == Join(Words(JsWhitespace, name), " ") && r != "" && Trimmed(r)
  {
    var ws := Words(JsWhitespace, name);
    CollapseTrimIsJoinedWords(name);
    TrimmedHasWords(name);
    WordsAreNonBlank(JsWhitespace, name);
    JoinedWordsTrimmed(ws);
  }

  /** The formatted author is never empty and never padded. */
  lemma {:induction false} FormatAuthorIsNamed(raw: Option<string>)
    ensures FormatAuthor(raw) != "" && Trimmed(FormatAuthor(raw))
  {
    if raw.Some? && raw.value != "" && Trim(raw.value) != "" {
      if IsLastFirst(Trim(raw.value)) {
        FormatAuthorSwapsNames(raw);
      } else {
        FormatAuthorCollapses(raw);
      }
    }
  }

  // ---------------------------------------------------------------------------
  // importing one book

  /** `data.summaries?.[0] ? data.summaries[0].slice(0, 2000) : undefined`. */
  function Description(summaries: Option<seq<string>>): (d: Option<string>)
    ensures d.Some? <==> summaries.Some? && |summaries.value| > 0 && summaries.value[0] != ""
    ensures d.Some? ==> d.value <= summaries.value[0] && |d.value| <= 2000
    ensures d.Some? && |summaries.value[0]| <= 2000 ==> d.value == summaries.value[0]
  {
    if summaries.Some? && |summaries.value| > 0 && summaries.value[0] != "" then
      var s := summaries.value[0];
      Some(if |s| <= 2000 then s else s[..2000])
    else None
  }

  /** `data.languages?.[0] || "en"`. */
  function Language(languages: seq<string>): (l: string)
    ensures |languages| > 0 && languages[0] != "" ==> l == languages[0]
    ensures |languages| == 0 || languages[0] == "" ==> l == "en"
  {
    if |languages| > 0 && languages[0] != "" then languages[0] else "en"
  }

  /** `data.authors?.[0]?.name`. */
  function FirstAuthor(authors: Option<seq<string>>): Option<string> {
    if authors.Some? && |authors.value| > 0 then Some(authors.value[0]) else None
  }

  /** The object handed to `bookSchema.parse`. Its `visibility` and
      `subjects` are not declared by the schema and do not survive it. */
  function ImportDraft(data: GutendexBook, fileName: string, cleanText: string): BookDraft {
    BookDraft(data.title, FormatAuthor(FirstAuthor(data.authors)), Language(data.languages),
              Description(data.summaries), "public-books/" + fileName, None,
              Some(CountWords(cleanText)), None, None)
  }

  /** The outcome of a request: it threw (network failure, unreadable body,
      a record the schema refuses), answered with a non-OK status, or
      delivered its body. */
  datatype Fetched<T> = Threw(message: string) | NotOk(status: nat) | Received(body: T)

  /** The world the script talks to: the Gutendex record for an id, the text
      behind a URL, the random name of the file written for an id, the error
      `fs.writeFile` throws when it writes that id's file (none when the
      write succeeds), and the message of the validation error for a list
      of issues. */
  datatype Catalogue = Catalogue(
    metadata: string -> Fetched<GutendexRecord>,
    download: string -> Fetched<string>,
    randomName: string -> string,
    writeError: string -> Option<string>,
    rejection: seq<BookIssue> -> string)

  /** `ImportResult`. */
  datatype ImportResult = ImportResult(id: string, success: bool, book: Option<BookInput>, reason: Option<string>)

  /** An import's result and the file it wrote, if it got that far. */
  datatype Import = Import(result: ImportResult, written: Option<(string, string)>)

  function Failure(id: string, reason: string): ImportResult {
    ImportResult(id, false, None, Some(reason))
  }

  /** What `importBook(id)` does, step by step, including the failures the
      `catch` turns into a reason, with the record parsed by `schema`. The
      text file is written before the book is validated. */
  function ImportOf(cat: Catalogue, schema: RecordSchema, id: string): (i: Import)
    ensures i.result.id == id
    ensures i.result.success <==> i.result.book.Some?
    ensures i.result.success ==> cat.metadata(id).Received? && i.written.Some? && i.result.reason.None?
    ensures !i.result.success ==> i.result.reason.Some?
  {
    match cat.metadata(id)
    case Threw(m) => Import(Failure(id, m), None)
    case NotOk(s) => Import(Failure(id, "Failed to fetch metadata (status " + NatText(s) + ")"), None)
    case Received(rec) => ImportRecord(cat, id, ParseRecord(schema, rec))
  }

  /** The rest of `importBook` once the record is parsed: the plain-text
      edition and its download. */
  function ImportRecord(cat: Catalogue, id: string, data: GutendexBook): (i: Import)
    ensures i.result.id == id
    ensures i.result.success <==> i.result.book.Some?
    ensures i.result.success ==> i.written.Some? && i.result.reason.None?
    ensures !i.result.success ==> i.result.reason.Some?
  {
    match TxtUrl(data.formats)
    case None => Import(Failure(id, "No TXT format"), None)
    case Some(url) =>
      match cat.download(url)
      case Threw(m) => Import(Failure(id, m), None)
      case NotOk(s) => Import(Failure(id, "Failed to download TXT (status " + NatText(s) + ")"), None)
      case Received(rawText) => ImportText(cat, id, data, rawText)
  }

  /** The rest of `importBook` once the text is downloaded: the cleaned
      text is written to a fresh file, then the book is validated. */
  function ImportText(cat: Catalogue, id: string, data: GutendexBook, rawText: string): (i: Import)
    ensures i.result.id == id
    ensures i.result.success <==> i.result.book.Some?
    ensures i.result.success ==> i.written.Some? && i.result.reason.None?
    ensures !i.result.success ==> i.result.reason.Some?
  {
    var cleanText := CleanGutenbergText(rawText);
    var fileName := cat.randomName(id) + ".txt";
    match cat.writeError(id)
    case Some(m) => Import(Failure(id, m), None)
    case None =>
      var written := Some((fileName, cleanText));
      match ParseBook(ImportDraft(data, fileName, cleanText))
      case Err(issues) => Import(Failure(id, cat.rejection(issues)), written)
      case Ok(book) => Import(ImportResult(id, true, Some(book), None), written)
  }

  /** `importBook`. */
  method ImportBook(cat: Catalogue, schema: RecordSchema, id: string) returns (r: ImportResult, written: Option<(string, string)>)
    ensures Import(r, written) == ImportOf(cat, schema, id)
  {
    written := None;
    var res := cat.metadata(id);
    if res.Threw? {
      return Failure(id, res.message), None;
    }
    if res.NotOk? {
      return Failure(id, "Failed to fetch metadata (status " + NatText(res.status) + ")"), None;
    }
    var data := ParseRecord(schema, res.body);
    ImportOfReceived(cat, schema, id);
    var txtUrl := GetTxtUrl(data.formats);
    if txtUrl.None? {
      return Failure(id, "No TXT format"), None;
    }
    var txtRes := cat.download(txtUrl.value);
    if txtRes.Threw? {
      return Failure(id, txtRes.message), None;
    }
    if txtRes.NotOk? {
      return Failure(id, "Failed to download TXT (status " + NatText(txtRes.status) + ")"), None;
    }
    ImportRecordDownloaded(cat, id, data);
    var cleanText := CleanGutenbergText(txtRes.body);
    var fileName := cat.randomName(id) + ".txt";
    var failure := cat.writeError(id);
    if failure.Some? {
      return Failure(id, failure.value), None;
    }
    written := Some((fileName, cleanText));
    var parsed := ParseBook(ImportDraft(data, fileName, cleanText));
    ImportTextWritten(cat, id, data, txtRes.body);
    if parsed.Err? {
      return Failure(id, cat.rejection(parsed.error)), written;
    }
    r := ImportResult(id, true, Some(parsed.value), None);
  }

  lemma {:induction false} ImportOfReceived(cat: Catalogue, schema: RecordSchema, id: string)
    requires cat.metadata(id).Received?
    ensures ImportOf(cat, schema, id) == ImportRecord(cat, id, ParseRecord(schema, cat.metadata(id).body))
  {
  }

  lemma {:induction false} ImportRecordDownloaded(cat: Catalogue, id: string, data: GutendexBook)
    requires TxtUrl(data.formats).Some? && cat.download(TxtUrl(data.formats).value).Received?
    ensures ImportRecord(cat, id, data) == ImportText(cat, id, data, cat.download(TxtUrl(data.formats).value).body)
  {
  }

  lemma {:induction false} ImportTextWritten(cat: Catalogue, id: string, data: GutendexBook, rawText: string)
    requires cat.writeError(id).None?
    ensures var fileName := cat.randomName(id) + ".txt";
            var cleanText := CleanGutenbergText(rawText);
            var parsed := ParseBook(ImportDraft(data, fileName, cleanText));
            ImportText(cat, id, data, rawText)
              == Import(if parsed.Ok? then ImportResult(id, true, Some(parsed.value), None)
                        else Failure(id, cat.rejection(parsed.error)),
                        Some((fileName, cleanText)))
  {
  }

  /** An import succeeds exactly when the record arrives, has a plain-text
      edition whose download arrives, the file is written, and the book
      passes validation; a success carries the book and no reason, a failure
      a reason and no book. */
  lemma {:induction false} ImportSucceedsExactly(cat: Catalogue, schema: RecordSchema, id: string)
    ensures var r := ImportOf(cat, schema, id).result;
            && r.id == id
            && (r.success <==>
                  && cat.metadata(id).Received?
                  && var data := ParseRecord(schema, cat.metadata(id).body);
                     && TxtUrl(data.formats).Some?
                     && cat.download(TxtUrl(data.formats).value).Received?
                     && cat.writeError(id).None?
                     && var text := CleanGutenbergText(cat.download(TxtUrl(data.formats).value).body);
                        DraftOk(ImportDraft(data, cat.randomName(id) + ".txt", text)))
            && (r.success ==> r.book.Some? && r.reason.None?)
            && (!r.success ==> r.book.None? && r.reason.Some?)
  {
    match cat.metadata(id)
    case Threw(_) =>
    case NotOk(_) =>
    case Received(rec) =>
      var data := ParseRecord(schema, rec);
      match TxtUrl(data.formats)
      case None =>
      case Some(url) =>
        match cat.download(url)
        case Threw(_) =>
        case NotOk(_) =>
        case Received(rawText) =>
          ImportOfReceived(cat, schema, id);
          ImportRecordDownloaded(cat, id, data);
          if cat.writeError(id).None? {
            ImportTextWritten(cat, id, data, rawText);
            ParseBookAcceptsExactly(ImportDraft(data, cat.randomName(id) + ".txt", CleanGutenbergText(rawText)));
          }
  }

  /** An imported book is public domain and ownerless, lives under
      "public-books/" in the file that was written, and records the number
      of words of the cleaned text. Its description is never set with the
      record schema as declared; with `summaries` declared it is the first
      summary, cut to 2000 characters. */
  lemma {:induction false} ImportedBookFields(cat: Catalogue, schema: RecordSchema, id: string)
    requires ImportOf(cat, schema, id).result.success
    ensures var i := ImportOf(cat, schema, id);
            var rec := cat.metadata(id).body;
            var book := i.result.book.value;
            && i.written.Some?
            && book.isPublicDomain && book.ownerId.None? && book.coverImagePath.None?
            && book.filepath == Trim("public-books/" + i.written.value.0)
            && book.wordCount == Some(|Words(JsWhitespace, i.written.value.1)|)
            && (schema == AsDeclared ==> book.description.None?)
            && (schema == WithSummaries ==> book.description == Description(rec.summaries))
            && book.author == FormatAuthor(FirstAuthor(rec.authors))
            && book.language == Lower(Trim(Language(rec.languages)))
            && book.title == Trim(rec.title)
  {
    var rec := cat.metadata(id).body;
    var data := ParseRecord(schema, rec);
    var url := TxtUrl(data.formats).value;
    var fileName := cat.randomName(id) + ".txt";
    var cleanText := CleanGutenbergText(cat.download(url).body);
    ImportSucceedsExactly(cat, schema, id);
    ImportOfReceived(cat, schema, id);
    ImportRecordDownloaded(cat, id, data);
    ImportTextWritten(cat, id, data, cat.download(url).body);
    DraftBookFields(data, fileName, cleanText);
  }

  /** The book `bookSchema` makes of an import's draft. */
  lemma {:induction false} DraftBookFields(data: GutendexBook, fileName: string, cleanText: string)
    requires ParseBook(ImportDraft(data, fileName, cleanText)).Ok?
    ensures var book := ParseBook(ImportDraft(data, fileName, cleanText)).value;
            && book.isPublicDomain && book.ownerId.None? && book.coverImagePath.None?
            && book.filepath == Trim("public-books/" + fileName)
            && book.wordCount == Some(|Words(JsWhitespace, cleanText)|)
            && book.description == Description(data.summaries)
            && book.author == FormatAuthor(FirstAuthor(data.authors))
            && book.language == Lower(Trim(Language(data.languages)))
            && book.title == Trim(data.title)
  {
    var draft := ImportDraft(data, fileName, cleanText);
    ParseBookAcceptsExactly(draft);
    CountWordsIsWordCount(cleanText);
    assert draft.wordCount == Some(CountWords(cleanText));
    FormatAuthorIsNamed(FirstAuthor(data.authors));
    TrimOfTrimmed(draft.author);
  }

  /** A record without a plain-text edition fails with "No TXT format" and
      writes nothing. */
  lemma {:induction false} NoTxtFormatWritesNothing(cat: Catalogue, schema: RecordSchema, id: string)
    requires cat.metadata(id).Received?
    requires forall k :: 0 <= k < |cat.metadata(id).body.formats| ==> !IsTextPlainKey(cat.metadata(id).body.formats[k].0)
    ensures ImportOf(cat, schema, id) == Import(Failure(id, "No TXT format"), None)
  {
  }

  /** A file that cannot be written fails the import with the error's
      message, and no book is produced. */
  lemma {:induction false} WriteFailureIsReason(cat: Catalogue, schema: RecordSchema, id: string)
    requires cat.metadata(id).Received?
    requires TxtUrl(ParseRecord(schema, cat.metadata(id).body).formats).Some?
    requires cat.download(TxtUrl(ParseRecord(schema, cat.metadata(id).body).formats).value).Received?
    requires cat.writeError(id).Some?
    ensures ImportOf(cat, schema, id) == Import(Failure(id, cat.writeError(id).value), None)
  {
  }

  /** A downloaded and written book that fails validation still leaves its
      text file behind. */
  lemma {:induction false} RejectedBookLeavesFile(cat: Catalogue, schema: RecordSchema, id: string)
    requires cat.metadata(id).Received?
    requires TxtUrl(ParseRecord(schema, cat.metadata(id).body).formats).Some?
    requires cat.download(TxtUrl(ParseRecord(schema, cat.metadata(id).body).formats).value).Received?
    requires cat.writeError(id).None?
    requires !ImportOf(cat, schema, id).result.success
    ensures ImportOf(cat, schema, id).written.Some?
  {
    var data := ParseRecord(schema, cat.metadata(id).body);
    ImportOfReceived(cat, schema, id);
    ImportRecordDownloaded(cat, id, data);
    ImportTextWritten(cat, id, data, cat.download(TxtUrl(data.formats).value).body);
  }

  /** With the record parsed as `gutendexBookSchema` is declared, a book
      never gets a description, even when its record has a summary; with the
      schema declaring `summaries`, the first summary becomes the
      description. */
  lemma {:induction false} SummaryDroppedAsWritten(rec: GutendexRecord, fileName: string, cleanText: string)
    requires rec.summaries.Some? && |rec.summaries.value| > 0 && rec.summaries.value[0] != ""
    ensures ImportDraft(ParseRecord(AsDeclared, rec), fileName, cleanText).description.None?
    ensures ImportDraft(ParseRecord(WithSummaries, rec), fileName, cleanText).description.Some?
  {
  }

  // ---------------------------------------------------------------------------
  // the batches and the log

  /** `BATCH_SIZE`: the configured concurrency, 5 when unset or zero. */
  function BatchSize(configured: RawNumber): (n: int)
    ensures configured == NotANumber || configured == Integer(0) ==> n == 5
    ensures configured.Integer? && configured.n != 0 ==> n == configured.n
  {
    NumberOr(configured, 5)
  }

  /** The import log, which is also the state of `successSet` (the imported
      ids in insertion order) and `failedMap` (an id and its last reason, in
      order of first failure). */
  datatype ImportLog = ImportLog(success: seq<string>, failed: seq<(string, string)>)

  /** `Set.prototype.add`. */
  function AddOrdered(s: seq<string>, x: string): seq<string> {
    if x in s then s else s + [x]
  }

  /** `Map.prototype.get`. */
  function Lookup(m: seq<(string, string)>, k: string): Option<string> {
    if m == [] then None else if m[0].0 == k then Some(m[0].1) else Lookup(m[1..], k)
  }

  /** `Map.prototype.set`: a present key keeps its place, a new one goes
      last. */
  function SetEntry(m: seq<(string, string)>, k: string, v: string): seq<(string, string)> {
    if m == [] then [(k, v)]
    else if m[0].0 == k then [(k, v)] + m[1..]
    else [m[0]] + SetEntry(m[1..], k, v)
  }

  /** After `set(k, v)`, `k` maps to `v` and every other key as before. */
  lemma {:induction false} SetEntryLookup(m: seq<(string, string)>, k: string, v: string, k': string)
    ensures Lookup(SetEntry(m, k, v), k') == if k' == k then Some(v) else Lookup(m, k')
  {
    if m != [] && m[0].0 != k {
      SetEntryLookup(m[1..], k, v, k');
      assert SetEntry(m, k, v)[1..] == SetEntry(m[1..], k, v);
    }
  }

  /** `new Set(log.success)`. */
  function Dedup(acc: seq<string>, xs: seq<string>): seq<string>
    decreases |xs|
  {
    if xs == [] then acc else Dedup(AddOrdered(acc, xs[0]), xs[1..])
  }

  /** The set holds exactly the ids it was built from. */
  lemma {:induction false} DedupMembers(acc: seq<string>, xs: seq<string>, y: string)
    ensures y in Dedup(acc, xs) <==> y in acc || y in xs
    decreases |xs|
  {
    if xs != [] {
      DedupMembers(AddOrdered(acc, xs[0]), xs[1..], y);
      assert y in xs <==> y == xs[0] || y in xs[1..];
    }
  }

  /** `new Map(log.failed.map(...))`. */
  function Entries(m: seq<(string, string)>, es: seq<(string, string)>): seq<(string, string)>
    decreases |es|
  {
    if es == [] then m else Entries(SetEntry(m, es[0].0, es[0].1), es[1..])
  }

  function Loaded(log: ImportLog): ImportLog {
    ImportLog(Dedup([], log.success), Entries([], log.failed))
  }

  /** `r.reason || "Unknown"`. */
  function ReasonText(r: ImportResult): string {
    if r.reason.Some? && r.reason.value != "" then r.reason.value else "Unknown"
  }

  /** One iteration of the log update. */
  function Note(st: ImportLog, r: ImportResult): ImportLog {
    if r.success then ImportLog(AddOrdered(st.success, r.id), st.failed)
    else ImportLog(st.success, SetEntry(st.failed, r.id, ReasonText(r)))
  }

  /** The log update over several results, in order. */
  function NoteAll(st: ImportLog, rs: seq<ImportResult>): ImportLog
    decreases |rs|
  {
    if rs == [] then st else NoteAll(Note(st, rs[0]), rs[1..])
  }

  lemma {:induction false} NoteAllAppend(st: ImportLog, a: seq<ImportResult>, b: seq<ImportResult>)
    ensures NoteAll(st, a + b) == NoteAll(NoteAll(st, a), b)
    decreases |a|
  {
    if a == [] {
      assert a + b == b;
    } else {
      assert (a + b)[0] == a[0] && (a + b)[1..] == a[1..] + b;
      NoteAllAppend(Note(st, a[0]), a[1..], b);
    }
  }

  /** After the update, an id is among the imported ones exactly when it was
      before or some result imported it; none is ever removed. */
  lemma {:induction false} NoteAllSuccess(st: ImportLog, rs: seq<ImportResult>, x: string)
    ensures st.success <= NoteAll(st, rs).success
    ensures x in NoteAll(st, rs).success <==>
              x in st.success || exists k :: 0 <= k < |rs| && rs[k].success && rs[k].id == x
    decreases |rs|
  {
    if rs != [] {
      NoteAllSuccess(Note(st, rs[0]), rs[1..], x);
      assert forall k :: 0 <= k < |rs| - 1 ==> rs[1..][k] == rs[k + 1];
      if x in NoteAll(st, rs).success && x !in st.success && !(rs[0].success && rs[0].id == x) {
        var k :| 0 <= k < |rs[1..]| && rs[1..][k].success && rs[1..][k].id == x;
        assert rs[k + 1].success && rs[k + 1].id == x;
      }
    }
  }

  /** The last failed result for `x`, if any. */
  function LastFailure(rs: seq<ImportResult>, x: string): Option<ImportResult>
    decreases |rs|
  {
    if rs == [] then None
    else
      var later := LastFailure(rs[1..], x);
      if later.Some? then later
      else if !rs[0].success && rs[0].id == x then Some(rs[0])
      else None
  }

  /** After the update, an id's recorded reason is that of its last failure
      in this run, or the one recorded before when it did not fail again; a
      success leaves a recorded failure in place. */
  lemma {:induction false} NoteAllFailed(st: ImportLog, rs: seq<ImportResult>, x: string)
    ensures Lookup(NoteAll(st, rs).failed, x) ==
              match LastFailure(rs, x)
              case Some(r) => Some(ReasonText(r))
              case None => Lookup(st.failed, x)
    decreases |rs|
  {
    if rs != [] {
      NoteAllFailed(Note(st, rs[0]), rs[1..], x);
      if !rs[0].success {
        SetEntryLookup(st.failed, rs[0].id, ReasonText(rs[0]), x);
      }
    }
  }

  /** `ids.filter((id) => !successSet.has(id))`. */
  function Remaining(ids: seq<string>, done: seq<string>): seq<string>
    decreases |ids|
  {
    if ids == [] then [] else (if ids[0] in done then [] else [ids[0]]) + Remaining(ids[1..], done)
  }

  /** The filter keeps exactly the ids that are not done. */
  lemma {:induction false} RemainingMembers(ids: seq<string>, done: seq<string>, x: string)
    ensures x in Remaining(ids, done) <==> x in ids && x !in done
    decreases |ids|
  {
    if ids != [] {
      RemainingMembers(ids[1..], done, x);
      assert x in ids <==> x == ids[0] || x in ids[1..];
    }
  }

  /** `remainingIds.slice(i, i + BATCH_SIZE)` for `i = 0, size, 2 * size, ...`. */
  function Batches(rem: seq<string>, size: nat): seq<seq<string>>
    requires size >= 1
    decreases |rem|
  {
    if rem == [] then []
    else if |rem| <= size then [rem]
    else [rem[..size]] + Batches(rem[size..], size)
  }

  /** Every batch is full except perhaps the last, which is not empty. */
  lemma {:induction false} BatchSizes(rem: seq<string>, size: nat)
    requires size >= 1
    ensures var bs := Batches(rem, size);
            && (forall k :: 0 <= k < |bs| ==> 1 <= |bs[k]| <= size)
            && (forall k :: 0 <= k < |bs| - 1 ==> |bs[k]| == size)
    decreases |rem|
  {
    if |rem| > size {
      BatchSizes(rem[size..], size);
      var bs := Batches(rem, size);
      assert forall k :: 1 <= k < |bs| ==> bs[k] == Batches(rem[size..], size)[k - 1];
    }
  }

  function Flatten(bs: seq<seq<string>>): seq<string> {
    if bs == [] then [] else bs[0] + Flatten(bs[1..])
  }

  /** The batches cover the remaining ids, in order, each once. */
  lemma {:induction false} BatchesCover(rem: seq<string>, size: nat)
    requires size >= 1
    ensures Flatten(Batches(rem, size)) == rem
    decreases |rem|
  {
    if |rem| > size {
      BatchesCover(rem[size..], size);
      BatchesStep(rem, size);
      FlattenCons(rem[..size], Batches(rem[size..], size));
      TakeDrop(rem, size);
    } else if rem != [] {
      assert rem + [] == rem;
    }
  }

  /** `Batches` unfolded once on more than one batch of ids. */
  lemma {:induction false} BatchesStep(rem: seq<string>, size: nat)
    requires size >= 1 && |rem| > size
    ensures Batches(rem, size) == [rem[..size]] + Batches(rem[size..], size)
  {
  }

  lemma {:induction false} FlattenCons(b: seq<string>, bs: seq<seq<string>>)
    ensures Flatten([b] + bs) == b + Flatten(bs)
  {
    assert ([b] + bs)[1..] == bs;
  }

  /** The results of one batch, in batch order. */
  function Results(importOne: string -> ImportResult, ids: seq<string>): (rs: seq<ImportResult>)
    ensures |rs| == |ids|
    decreases |ids|
  {
    if ids == [] then [] else [importOne(ids[0])] + Results(importOne, ids[1..])
  }

  lemma {:induction false} ResultsAppend(importOne: string -> ImportResult, a: seq<string>, b: seq<string>)
    ensures Results(importOne, a + b) == Results(importOne, a) + Results(importOne, b)
    decreases |a|
  {
    if a == [] {
      assert a + b == b;
    } else {
      assert (a + b)[0] == a[0] && (a + b)[1..] == a[1..] + b;
      ResultsAppend(importOne, a[1..], b);
    }
  }

  /** `results.filter((r) => r.success && r.book).map((r) => r.book!)`. */
  function SuccessfulBooks(rs: seq<ImportResult>): seq<BookInput>
    decreases |rs|
  {
    if rs == [] then []
    else (if rs[0].success && rs[0].book.Some? then [rs[0].book.value] else []) + SuccessfulBooks(rs[1..])
  }

  lemma {:induction false} SuccessfulBooksAppend(a: seq<ImportResult>, b: seq<ImportResult>)
    ensures SuccessfulBooks(a + b) == SuccessfulBooks(a) + SuccessfulBooks(b)
    decreases |a|
  {
    if a == [] {
      assert a + b == b;
    } else {
      assert (a + b)[0] == a[0] && (a + b)[1..] == a[1..] + b;
      SuccessfulBooksAppend(a[1..], b);
    }
  }

  /** `importOne` gives, for every id, the result `importBook` returns for
      it. */
  ghost predicate Describes(cat: Catalogue, schema: RecordSchema, importOne: string -> ImportResult) {
    forall id {:trigger ImportOf(cat, schema, id)} :: importOne(id) == ImportOf(cat, schema, id).result
  }

  /** `Promise.all(batch.map(importBook))`: the imports of a batch, their
      results in batch order. */
  method ImportBatch(cat: Catalogue, schema: RecordSchema, batch: seq<string>, ghost importOne: string -> ImportResult)
      returns (results: seq<ImportResult>)
    requires Describes(cat, schema, importOne)
    ensures results == Results(importOne, batch)
  {
    results := [];
    var k := 0;
    while k < |batch|
      invariant 0 <= k <= |batch|
      invariant results + Results(importOne, batch[k..]) == Results(importOne, batch)
    {
      assert batch[k..][1..] == batch[k + 1..];
      var r, _ := ImportBook(cat, schema, batch[k]);
      results := results + [r];
      k := k + 1;
    }
  }

  /** The rest of the slicing after the batch starting at `i`. */
  lemma {:induction false} BatchStep(rem: seq<string>, size: nat, i: nat)
    requires size >= 1 && i < |rem|
    ensures var e := Min(i + size, |rem|);
            && rem[i..] == rem[i..e] + rem[e..]
            && Batches(rem[i..], size) == [rem[i..e]] + Batches(rem[e..], size)
  {
    var e := Min(i + size, |rem|);
    var t := rem[i..];
    if |t| > size {
      assert t[..size] == rem[i..e] && t[size..] == rem[e..];
    } else {
      assert e == |rem| && rem[i..e] == t && rem[e..] == [];
    }
  }

  /** The `for (const r of results)` loop: records each result in turn. */
  method NoteResults(st0: ImportLog, results: seq<ImportResult>) returns (st: ImportLog)
    ensures st == NoteAll(st0, results)
  {
    st := st0;
    var j := 0;
    while j < |results|
      invariant 0 <= j <= |results|
      invariant NoteAll(st, results[j..]) == NoteAll(st0, results)
    {
      assert results[j..][1..] == results[j + 1..];
      var r := results[j];
      if r.success {
        st := st.(success := AddOrdered(st.success, r.id));
      } else {
        st := st.(failed := SetEntry(st.failed, r.id, ReasonText(r)));
      }
      j := j + 1;
    }
  }

  /** The ids not yet imported, in list order. */
  function ToImport(ids: seq<string>, stored: ImportLog): seq<string> {
    Remaining(ids, Loaded(stored).success)
  }

  /** Where the main loop stands: the log last saved, the sets it is built
      from, the batches run and the books handed to `insertManyBooks`. */
  datatype Progress = Progress(saved: ImportLog, current: ImportLog, batches: seq<seq<string>>, inserted: seq<BookInput>)

  /** One iteration of the main loop. */
  function AfterBatch(importOne: string -> ImportResult, p: Progress, batch: seq<string>): Progress {
    var rs := Results(importOne, batch);
    var st := NoteAll(p.current, rs);
    Progress(st, st, p.batches + [batch], p.inserted + SuccessfulBooks(rs))
  }

  /** The main loop from `p` over the ids still to slice. */
  function RunFrom(importOne: string -> ImportResult, p: Progress, rem: seq<string>, size: nat): Progress
    requires size >= 1
    decreases |rem|
  {
    if rem == [] then p
    else
      var e := Min(size, |rem|);
      RunFrom(importOne, AfterBatch(importOne, p, rem[..e]), rem[e..], size)
  }

  /** One turn of the loop at offset `i` takes the next slice. */
  lemma {:induction false} RunFromStep(importOne: string -> ImportResult, p: Progress, rem: seq<string>, size: nat, i: nat)
    requires size >= 1 && i < |rem|
    ensures var e := Min(i + size, |rem|);
            RunFrom(importOne, p, rem[i..], size) == RunFrom(importOne, AfterBatch(importOne, p, rem[i..e]), rem[e..], size)
  {
    var e := Min(i + size, |rem|);
    assert rem[i..][..Min(size, |rem| - i)] == rem[i..e];
    assert rem[i..][Min(size, |rem| - i)..] == rem[e..];
  }

  /** The loop runs the batches of the slicing, in order. */
  lemma {:induction false} RunFromBatches(importOne: string -> ImportResult, p: Progress, rem: seq<string>, size: nat)
    requires size >= 1
    ensures RunFrom(importOne, p, rem, size).batches == p.batches + Batches(rem, size)
    decreases |rem|
  {
    if rem != [] {
      var e := Min(size, |rem|);
      RunFromBatches(importOne, AfterBatch(importOne, p, rem[..e]), rem[e..], size);
      if e == |rem| {
        assert rem[e..] == [] && rem[..e] == rem;
      }
    }
  }

  /** The sets end up updated with every result, in order, and the saved
      log is the last state of the sets (the loaded log when nothing was
      left to import). */
  lemma {:induction false} RunFromLog(importOne: string -> ImportResult, p: Progress, rem: seq<string>, size: nat)
    requires size >= 1
    ensures RunFrom(importOne, p, rem, size).current == NoteAll(p.current, Results(importOne, rem))
    ensures RunFrom(importOne, p, rem, size).saved == if rem == [] then p.saved else RunFrom(importOne, p, rem, size).current
    decreases |rem|
  {
    if rem != [] {
      var e := Min(size, |rem|);
      RunFromLog(importOne, AfterBatch(importOne, p, rem[..e]), rem[e..], size);
      assert rem == rem[..e] + rem[e..];
      ResultsAppend(importOne, rem[..e], rem[e..]);
      NoteAllAppend(p.current, Results(importOne, rem[..e]), Results(importOne, rem[e..]));
    }
  }

  /** The books handed to `insertManyBooks` are those of the successful
      results, in order. */
  lemma {:induction false} RunFromInserted(importOne: string -> ImportResult, p: Progress, rem: seq<string>, size: nat)
    requires size >= 1
    ensures RunFrom(importOne, p, rem, size).inserted == p.inserted + SuccessfulBooks(Results(importOne, rem))
    decreases |rem|
  {
    if rem == [] {
      assert p.inserted + [] == p.inserted;
    } else {
      var e := Min(size, |rem|);
      RunFromInserted(importOne, AfterBatch(importOne, p, rem[..e]), rem[e..], size);
      BatchBooksSplit(importOne, rem, e);
      AppendAssociates(p.inserted, SuccessfulBooks(Results(importOne, rem[..e])),
                       SuccessfulBooks(Results(importOne, rem[e..])));
    }
  }

  /** The books of a run of ids are those of its first `e` ids, then those
      of the rest. */
  lemma {:induction false} BatchBooksSplit(importOne: string -> ImportResult, rem: seq<string>, e: nat)
    requires e <= |rem|
    ensures SuccessfulBooks(Results(importOne, rem))
              == SuccessfulBooks(Results(importOne, rem[..e])) + SuccessfulBooks(Results(importOne, rem[e..]))
  {
    assert rem == rem[..e] + rem[e..];
    ResultsAppend(importOne, rem[..e], rem[e..]);
    SuccessfulBooksAppend(Results(importOne, rem[..e]), Results(importOne, rem[e..]));
  }

  /** `main` after the ids and the log are read: the log is loaded into
      `successSet` and `failedMap`, the ids not yet imported are imported in
      batches, each batch's books are handed to `insertManyBooks`, and the log
      is rewritten after every batch. `schema` says which declaration of the
      record schema each import parses with. */
  method ImportAll(cat: Catalogue, schema: RecordSchema, ids: seq<string>, stored: ImportLog, batchSize: int,
                   ghost importOne: string -> ImportResult)
      returns (log: ImportLog, batches: seq<seq<string>>, inserted: seq<BookInput>)
    requires batchSize >= 1
    requires Describes(cat, schema, importOne)
    ensures batches == Batches(ToImport(ids, stored), batchSize)
    ensures ToImport(ids, stored) == [] ==> log == stored
    ensures ToImport(ids, stored) != [] ==> log == NoteAll(Loaded(stored), Results(importOne, ToImport(ids, stored)))
    ensures inserted == SuccessfulBooks(Results(importOne, ToImport(ids, stored)))
  {
    log := stored;
    var st := Loaded(stored);
    var rem := Remaining(ids, st.success);
    batches := [];
    inserted := [];
    ghost var start := Progress(log, st, batches, inserted);
    var i := 0;
    ghost var pos := 0;
    while i < |rem|
      invariant 0 <= i && pos == Min(i, |rem|)
      invariant RunFrom(importOne, Progress(log, st, batches, inserted), rem[pos..], batchSize) == RunFrom(importOne, start, rem, batchSize)
    {
      var e := Min(i + batchSize, |rem|);
      var batch := rem[i..e];
      ghost var before := Progress(log, st, batches, inserted);
      RunFromStep(importOne, before, rem, batchSize, i);
      var results := ImportBatch(cat, schema, batch, importOne);
      var successfulBooks := SuccessfulBooks(results);
      if |successfulBooks| > 0 {
        inserted := inserted + successfulBooks;
      } else {
        assert inserted + successfulBooks == inserted;
      }
      st := NoteResults(st, results);
      log := st;
      batches := batches + [batch];
      i := i + batchSize;
      pos := e;
      assert Progress(log, st, batches, inserted) == AfterBatch(importOne, before, batch);
    }
    assert rem[pos..] == [];
    RunFromBatches(importOne, start, rem, batchSize);
    RunFromLog(importOne, start, rem, batchSize);
    RunFromInserted(importOne, start, rem, batchSize);
    assert [] + Batches(rem, batchSize) == Batches(rem, batchSize);
    assert [] + SuccessfulBooks(Results(importOne, rem)) == SuccessfulBooks(Results(importOne, rem));
  }

  /** Every id of the batches is in the id list and was not imported by an
      earlier run, and every such id is in exactly one batch position. */
  lemma {:induction false} NothingImportedTwice(ids: seq<string>, stored: ImportLog, batchSize: int)
    requires batchSize >= 1
    ensures Flatten(Batches(ToImport(ids, stored), batchSize)) == ToImport(ids, stored)
    ensures forall x :: x in ToImport(ids, stored) <==> x in ids && x !in stored.success
  {
    BatchesCover(ToImport(ids, stored), batchSize);
    forall x ensures x in ToImport(ids, stored) <==> x in ids && x !in stored.success {
      RemainingMembers(ids, Loaded(stored).success, x);
      DedupMembers([], stored.success, x);
    }
  }
}
