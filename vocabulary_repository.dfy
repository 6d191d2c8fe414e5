/** The vocabulary repository's own logic: the document a new entry is
    stored as, the query a listing sends to the store, the single-entry
    delete, and the statistics folded from the store's grouped counts. The
    store is an in-memory list of entries; the grouped counts are inputs. */
module VocabularyRepository {
  import opened Wrappers
  import opened Text
  import opened Paging
  import opened VocabularySchema

  /** A stored entry. Absent optional fields are stored as null (`None`). */
  datatype VocabularyEntry = VocabularyEntry(
    id: string, userId: string, word: string, meaning: Option<string>, bookId: Option<string>,
    context: Option<string>, position: Option<Position>, language: string, status: Status)

  /** `createEntry`: the document handed to the store. The meaning, context
      and position become null when absent, and the book id when it is
      empty. */
  function CreateEntry(id: string, userId: string, data: CreateVocabularyInput): (e: VocabularyEntry)
    ensures e.id == id && e.userId == userId
    ensures e.word == data.word && e.language == data.language && e.status == data.status
    ensures e.meaning == data.meaning && e.context == data.context && e.position == data.position
    ensures e.bookId.None? <==> data.bookId == ""
    ensures e.bookId.Some? ==> e.bookId.value == data.bookId
  {
    VocabularyEntry(id, userId, data.word, data.meaning, if data.bookId != "" then Some(data.bookId) else None,
                    data.context, data.position, data.language, data.status)
  }

  /** A body accepted by the create validator always names its book, so the
      stored entry never has a null book id, and its word and language are
      the normalised ones. */
  lemma {:induction false} CreatedEntryKeepsBook(id: string, userId: string, d: CreateDraft)
    requires ParseCreate(d).Ok?
    ensures var e := CreateEntry(id, userId, ParseCreate(d).value);
            && e.bookId == Some(d.bookId)
            && e.word == Lower(Trim(d.word))
            && e.language == Lower(Trim(d.language))
            && (d.status.None? ==> e.status == New)
  {
    ParseCreateAcceptsExactly(d);
  }

  // ---------------------------------------------------------------------------
  // findEntries

  /** The filter document of a listing: always the owner, then each of the
      book, status, language and full-text search only when given. */
  datatype EntryFilter = EntryFilter(
    userId: string, bookId: Option<string>, status: Option<Status>, language: Option<string>,
    textSearch: Option<string>)

  /** A JavaScript string is truthy when it is present and non-empty. */
  predicate Given(s: Option<string>) {
    s.Some? && s.value != ""
  }

  function Truthy(s: Option<string>): (r: Option<string>)
    ensures r.Some? <==> Given(s)
    ensures r.Some? ==> r == s
  {
    if Given(s) then s else None
  }

  /** The filter; it selects an entry when every field it holds matches
      (the text search is left to the store). */
  function EntriesFilter(userId: string, q: FindVocabularyQueryInput): EntryFilter {
    EntryFilter(userId, Truthy(q.bookId), q.status, Truthy(q.language), Truthy(q.search))
  }

  predicate Selects(f: EntryFilter, e: VocabularyEntry) {
    && e.userId == f.userId
    && (f.bookId.Some? ==> e.bookId == f.bookId)
    && (f.status.Some? ==> e.status == f.status.value)
    && (f.language.Some? ==> e.language == f.language.value)
  }

  /** A listing only ever selects the caller's own entries, and narrows by
      book, status and language exactly when those are given; an empty
      language (what a blank one becomes) does not narrow. */
  lemma {:induction false} EntriesFilterSelects(userId: string, q: FindVocabularyQueryInput, e: VocabularyEntry)
    ensures Selects(EntriesFilter(userId, q), e) ==> e.userId == userId
    ensures e.userId == userId && (Given(q.bookId) ==> e.bookId == q.bookId)
            && (q.status.Some? ==> e.status == q.status.value)
            && (Given(q.language) ==> e.language == q.language.value)
            ==> Selects(EntriesFilter(userId, q), e)
    ensures q.language == Some("") ==> EntriesFilter(userId, q).language.None?
  {
  }

  /** `findEntries` once the store has counted the matching entries: the
      filter, and the page to serve (newest first). */
  datatype EntriesQuery = EntriesQuery(filter: EntryFilter, page: PageRequest)

  function FindEntries(userId: string, q: FindVocabularyQueryInput, total: nat): (r: EntriesQuery)
    ensures r.filter == EntriesFilter(userId, q)
    ensures r.page == Paginate(Integer(q.page), Integer(q.limit), total)
  {
    EntriesQuery(EntriesFilter(userId, q), Paginate(Integer(q.page), Integer(q.limit), total))
  }

  /** For a validated query the clamps change nothing: the limit is the one
      asked for, and the page is the one asked for unless it lies past the
      last page; the skip never passes the last matching entry. */
  lemma {:induction false} FindEntriesPaging(userId: string, d: QueryDraft, total: nat)
    requires ParseQuery(d).Ok?
    ensures var q := ParseQuery(d).value;
            var r := FindEntries(userId, q, total).page;
            && r.take == q.limit && r.meta.limit == q.limit
            && (q.page <= r.meta.totalPages ==> r.meta.page == q.page)
            && (total > 0 ==> r.skip < total)
            && r.skip == (r.meta.page - 1) * q.limit
  {
    ParseQueryBounds(d);
    var q := ParseQuery(d).value;
    PaginateServesExistingPage(Integer(q.page), Integer(q.limit), total);
  }

  // ---------------------------------------------------------------------------
  // deleteEntry

  /** The index of the first entry with this id owned by this user. */
  function FindOwned(entries: seq<VocabularyEntry>, id: string, userId: string): (r: Option<nat>)
    ensures r.Some? ==> r.value < |entries| && entries[r.value].id == id && entries[r.value].userId == userId
    ensures r.Some? ==> forall k :: 0 <= k < r.value ==> !(entries[k].id == id && entries[k].userId == userId)
    ensures r.None? ==> forall k :: 0 <= k < |entries| ==> !(entries[k].id == id && entries[k].userId == userId)
  {
    if entries == [] then None
    else if entries[0].id == id && entries[0].userId == userId then Some(0)
    else match FindOwned(entries[1..], id, userId)
      case Some(k) => Some(k + 1)
      case None => None
  }

  /** `deleteOne({ _id: id, userId })` followed by `deletedCount === 1`:
      the remaining entries and whether one was deleted. */
  function DeleteEntry(entries: seq<VocabularyEntry>, id: string, userId: string)
    : (r: (seq<VocabularyEntry>, bool))
  {
    match FindOwned(entries, id, userId)
    case None => (entries, false)
    case Some(k) => (entries[..k] + entries[k + 1..], true)
  }

  /** The delete reports true exactly when the caller owned an entry with
      that id; then that one entry is gone and every other entry stays in
      order, otherwise nothing changes. Another user's entry is never
      deleted. */
  lemma {:induction false} DeleteEntryOutcome(entries: seq<VocabularyEntry>, id: string, userId: string)
    ensures var (rest, deleted) := DeleteEntry(entries, id, userId);
            && (deleted <==> exists k :: 0 <= k < |entries| && entries[k].id == id && entries[k].userId == userId)
            && (!deleted ==> rest == entries)
            && (deleted ==> |rest| == |entries| - 1)
            && (deleted ==> exists k :: 0 <= k < |entries| && entries[k].id == id && entries[k].userId == userId
                                        && rest == entries[..k] + entries[k + 1..])
            && (forall e :: e in entries && e.userId != userId ==> e in rest)
  {
    var (rest, deleted) := DeleteEntry(entries, id, userId);
    if deleted {
      var k := FindOwned(entries, id, userId).value;
      forall e | e in entries && e.userId != userId ensures e in rest {
        var j :| 0 <= j < |entries| && entries[j] == e;
        if j < k {
          assert rest[j] == e;
        } else {
          assert j != k;
          assert rest[j - 1] == e;
        }
      }
    }
  }

  // ---------------------------------------------------------------------------
  // getVocabularyStats

  /** One group of an aggregation: its key and how many entries it holds. */
  datatype Group = Group(key: string, count: nat)

  /** The object after `forEach(item => obj[item._id] = item.count)`: each
      group in turn sets its key, a later group overwriting an earlier one. */
  function Tallied(init: map<string, nat>, groups: seq<Group>): map<string, nat>
    decreases |groups|
  {
    if groups == [] then init
    else Tallied(init[groups[0].key := groups[0].count], groups[1..])
  }

  function Keys(groups: seq<Group>): set<string> {
    set k | 0 <= k < |groups| :: groups[k].key
  }

  /** The fold keeps every key it started with, adds the keys of the
      groups and no others, gives a key no group names its starting value,
      and gives a key the count of the last group naming it. */
  lemma {:induction false} TalliedMeaning(init: map<string, nat>, groups: seq<Group>)
    ensures Tallied(init, groups).Keys == init.Keys + Keys(groups)
    ensures forall key :: key in init && key !in Keys(groups) ==> Tallied(init, groups)[key] == init[key]
    ensures forall k :: 0 <= k < |groups| && (forall j :: k < j < |groups| ==> groups[j].key != groups[k].key)
                        ==> Tallied(init, groups)[groups[k].key] == groups[k].count
    decreases |groups|
  {
    if groups != [] {
      var g := groups[0];
      var rest := groups[1..];
      TalliedMeaning(init[g.key := g.count], rest);
      assert Keys(groups) == {g.key} + Keys(rest) by {
        forall x | x in Keys(groups) ensures x in {g.key} + Keys(rest) {
          var k :| 0 <= k < |groups| && groups[k].key == x;
          if k > 0 { assert rest[k - 1].key == x; }
        }
        forall x | x in Keys(rest) ensures x in Keys(groups) {
          var k :| 0 <= k < |rest| && rest[k].key == x;
          assert groups[k + 1].key == x;
        }
      }
      forall k | 0 <= k < |groups| && (forall j :: k < j < |groups| ==> groups[j].key != groups[k].key)
        ensures Tallied(init, groups)[groups[k].key] == groups[k].count
      {
        if k > 0 {
          assert rest[k - 1] == groups[k];
          assert forall j :: k - 1 < j < |rest| ==> rest[j].key != rest[k - 1].key by {
            forall j | k - 1 < j < |rest| ensures rest[j].key != rest[k - 1].key {
              assert rest[j] == groups[j + 1];
            }
          }
        } else {
          assert g.key !in Keys(rest) by {
            forall j | 0 <= j < |rest| ensures rest[j].key != g.key {
              assert rest[j] == groups[j + 1];
            }
          }
        }
      }
    }
  }

  /** A `forEach` loop over the groups that assigns into the object. */
  method Tally(init: map<string, nat>, groups: seq<Group>) returns (m: map<string, nat>)
    ensures m == Tallied(init, groups)
  {
    m := init;
    var i := 0;
    while i < |groups|
      invariant 0 <= i <= |groups|
      invariant Tallied(m, groups[i..]) == Tallied(init, groups)
    {
      assert groups[i..][1..] == groups[i + 1..];
      m := m[groups[i].key := groups[i].count];
      i := i + 1;
    }
  }

  /** The statistics: counts by status (every status present, 0 by
      default), by language and by day. */
  datatype VocabularyStats = VocabularyStats(
    byStatus: map<string, nat>, byLanguage: map<string, nat>, byDay: map<string, nat>)

  const NoStatuses: map<string, nat> := map["new" := 0, "learning" := 0, "mastered" := 0]

  /** `getVocabularyStats` given the store's three aggregations. */
  method GetVocabularyStats(statusGroups: seq<Group>, languageGroups: seq<Group>, dayGroups: seq<Group>)
    returns (stats: VocabularyStats)
    ensures stats.byStatus == Tallied(NoStatuses, statusGroups)
    ensures stats.byLanguage == Tallied(map[], languageGroups)
    ensures stats.byDay == Tallied(map[], dayGroups)
  {
    var byStatus := Tally(NoStatuses, statusGroups);
    var byLanguage := Tally(map[], languageGroups);
    var byDay := Tally(map[], dayGroups);
    stats := VocabularyStats(byStatus, byLanguage, byDay);
  }

  /** `byStatus` always holds "new", "learning" and "mastered", a status
      without entries counting 0; `byLanguage` and `byDay` have one key per
      group, holding that group's count (the store's groups have distinct
      keys). */
  lemma {:induction false} StatsMeaning(statusGroups: seq<Group>, languageGroups: seq<Group>, dayGroups: seq<Group>)
    ensures var s := Tallied(NoStatuses, statusGroups);
            && "new" in s && "learning" in s && "mastered" in s
            && (forall key :: key in NoStatuses && key !in Keys(statusGroups) ==> s[key] == 0)
    ensures Tallied(map[], languageGroups).Keys == Keys(languageGroups)
    ensures Tallied(map[], dayGroups).Keys == Keys(dayGroups)
    ensures (forall i, j :: 0 <= i < j < |languageGroups| ==> languageGroups[i].key != languageGroups[j].key) ==>
              forall k :: 0 <= k < |languageGroups| ==> Tallied(map[], languageGroups)[languageGroups[k].key] == languageGroups[k].count
    ensures (forall i, j :: 0 <= i < j < |dayGroups| ==> dayGroups[i].key != dayGroups[j].key) ==>
              forall k :: 0 <= k < |dayGroups| ==> Tallied(map[], dayGroups)[dayGroups[k].key] == dayGroups[k].count
  {
    StatusTally(statusGroups);
    GroupTally(languageGroups);
    GroupTally(dayGroups);
  }

  lemma {:induction false} StatusTally(groups: seq<Group>)
    ensures var s := Tallied(NoStatuses, groups);
            && "new" in s && "learning" in s && "mastered" in s
            && (forall key :: key in NoStatuses && key !in Keys(groups) ==> s[key] == 0)
  {
    TalliedMeaning(NoStatuses, groups);
    assert "new" in NoStatuses && "learning" in NoStatuses && "mastered" in NoStatuses;
  }

  lemma {:induction false} GroupTally(groups: seq<Group>)
    ensures Tallied(map[], groups).Keys == Keys(groups)
    ensures (forall i, j :: 0 <= i < j < |groups| ==> groups[i].key != groups[j].key) ==>
              forall k :: 0 <= k < |groups| ==> Tallied(map[], groups)[groups[k].key] == groups[k].count
  {
    TalliedMeaning(map[], groups);
    var empty: map<string, nat> := map[];
    assert empty.Keys + Keys(groups) == Keys(groups);
  }
}
