/** The two server mappers that turn stored books and vocabulary entries
    into the objects the API sends. Object ids are held by their string
    form, so `toString` on an id is the identity here; dates are formatted
    by the oracle `iso`. */
module Mappers {
  import opened Wrappers

  // ---------------------------------------------------------------------------
  // books

  /** The stored book fields the mappers read. `subjects` may be absent. */
  datatype StoredBook = StoredBook(id: string, title: string, author: string, language: string,
                                   coverImagePath: Option<string>, wordCount: nat,
                                   description: Option<string>, subjects: Option<seq<string>>)

  datatype BookListDto = BookListDto(id: string, title: string, author: string, language: string,
                                     coverImagePath: Option<string>, wordCount: nat)

  datatype BookDetailDto = BookDetailDto(id: string, title: string, author: string, language: string,
                                         coverImagePath: Option<string>, wordCount: nat,
                                         description: Option<string>, subjects: seq<string>)

  /** `toBookListDTO`: the id as text and the five listed fields copied. */
  function ToBookList(b: StoredBook): (d: BookListDto)
    ensures d.id == b.id && d.title == b.title && d.author == b.author && d.language == b.language
    ensures d.coverImagePath == b.coverImagePath && d.wordCount == b.wordCount
  {
    BookListDto(b.id, b.title, b.author, b.language, b.coverImagePath, b.wordCount)
  }

  /** The list fields of a detail object. */
  function ListPart(d: BookDetailDto): BookListDto {
    BookListDto(d.id, d.title, d.author, d.language, d.coverImagePath, d.wordCount)
  }

  /** `toBookDetailDTO`: the list object spread, the description copied and
      the subjects defaulting to none. */
  function ToBookDetail(b: StoredBook): (d: BookDetailDto)
    ensures d.description == b.description
    ensures d.subjects == if b.subjects.Some? then b.subjects.value else []
  {
    var l := ToBookList(b);
    BookDetailDto(l.id, l.title, l.author, l.language, l.coverImagePath, l.wordCount,
                  b.description, if b.subjects.Some? then b.subjects.value else [])
  }

  /** The detail object carries every field of the list object with the same
      value, and two books with the same detail object have the same list
      object. */
  lemma {:induction false} DetailExtendsList(b: StoredBook, c: StoredBook)
    ensures ListPart(ToBookDetail(b)) == ToBookList(b)
    ensures ToBookDetail(b) == ToBookDetail(c) ==> ToBookList(b) == ToBookList(c)
  {
  }

  // ---------------------------------------------------------------------------
  // vocabulary entries

  datatype Snapshot = Snapshot(title: string, author: string)

  datatype Position = Position(startOffset: nat, endOffset: nat)

  /** A stored vocabulary entry as the mappers read it: the store requires
      its book id and snapshot; meaning, context and position may be
      missing or null, which are both `None` here. */
  datatype StoredEntry = StoredEntry(id: string, userId: string, bookId: string, word: string,
                                     language: string, status: string, bookSnapshot: Snapshot,
                                     meaning: Option<string>, context: Option<string>,
                                     position: Option<Position>, createdAt: int, updatedAt: int)

  /** A field sent as `null` is `None`. */
  datatype EntryListDto = EntryListDto(id: string, word: string, language: string, status: string,
                                       bookSnapshot: Snapshot, meaning: Option<string>)

  datatype EntryDetailDto = EntryDetailDto(id: string, bookId: string, word: string, language: string,
                                           status: string, bookSnapshot: Snapshot,
                                           meaning: Option<string>, context: Option<string>,
                                           position: Option<Position>, createdAt: string, updatedAt: string)

  /** `toVocabularyListDTO`: no book id, context, position or dates. */
  function ToEntryList(e: StoredEntry): (d: EntryListDto)
    ensures d.id == e.id && d.word == e.word && d.language == e.language && d.status == e.status
    ensures d.bookSnapshot == e.bookSnapshot
    ensures d.meaning.None? <==> e.meaning.None?
    ensures d.meaning.Some? ==> d.meaning == e.meaning
  {
    EntryListDto(e.id, e.word, e.language, e.status, e.bookSnapshot, e.meaning)
  }

  /** `toVocabularyDetailDTO`, with `iso` the `toISOString` of a stored
      date. */
  function ToEntryDetail(e: StoredEntry, iso: int -> string): (d: EntryDetailDto)
    ensures d.id == e.id && d.bookId == e.bookId && d.word == e.word && d.language == e.language
    ensures d.status == e.status && d.bookSnapshot == e.bookSnapshot
    ensures d.meaning == e.meaning && d.context == e.context && d.position == e.position
    ensures d.createdAt == iso(e.createdAt) && d.updatedAt == iso(e.updatedAt)
  {
    EntryDetailDto(e.id, e.bookId, e.word, e.language, e.status, e.bookSnapshot,
                   e.meaning, e.context, e.position, iso(e.createdAt), iso(e.updatedAt))
  }

  /** The list object is the detail object less its book id, context,
      position and dates; so entries that differ only there share a list
      object. */
  lemma {:induction false} ListIsDetailWithoutBook(e: StoredEntry, iso: int -> string, bookId: string, context: Option<string>,
                                position: Option<Position>)
    ensures var d := ToEntryDetail(e, iso);
            ToEntryList(e) == EntryListDto(d.id, d.word, d.language, d.status, d.bookSnapshot, d.meaning)
    ensures ToEntryList(e.(bookId := bookId, context := context, position := position)) == ToEntryList(e)
  {
  }
}
