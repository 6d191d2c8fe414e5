/** The reading list kept on each user: at most ten books, most recently
    added last, each book at most once. The collection is the map from a
    user's id to that user's list; a user who does not exist has no entry. */
module UserRepository {
  import opened Wrappers

  /** One book of a reading list. */
  datatype ReadingBook = ReadingBook(id: string, title: string, author: string, imageUrl: Option<string>)

  /** The `$slice` of the push: the reading list keeps its last ten books. */
  const ReadingListCap: nat := 10

  /** `$pull: { readingBooks: { id } }`: every book with that id removed,
      the others kept in order. */
  function Pull(list: seq<ReadingBook>, id: string): (r: seq<ReadingBook>)
    ensures |r| <= |list|
    ensures forall k :: 0 <= k < |r| ==> r[k].id != id
  {
    if list == [] then []
    else if list[0].id == id then Pull(list[1..], id)
    else [list[0]] + Pull(list[1..], id)
  }

  /** `$slice: -n`: the last `n` elements. */
  function Last(list: seq<ReadingBook>, n: nat): (r: seq<ReadingBook>)
    ensures |r| == (if |list| <= n then |list| else n)
    ensures r == list[|list| - |r|..]
  {
    if |list| <= n then list else list[|list| - n..]
  }

  /** The list after `addBookToReadingList`: the book's earlier copies
      pulled, the book pushed at the end, the front cut to ten. */
  function Added(list: seq<ReadingBook>, book: ReadingBook): seq<ReadingBook> {
    Last(Pull(list, book.id) + [book], ReadingListCap)
  }

  /** Pulling keeps exactly the books with another id. */
  lemma {:induction false} PullMembers(list: seq<ReadingBook>, id: string)
    ensures forall b :: b in Pull(list, id) <==> b in list && b.id != id
  {
    if list != [] {
      PullMembers(list[1..], id);
      assert list == [list[0]] + list[1..];
    }
  }

  /** Pulling works piece by piece, so the books kept stay in their order. */
  lemma {:induction false} PullAppend(a: seq<ReadingBook>, b: seq<ReadingBook>, id: string)
    ensures Pull(a + b, id) == Pull(a, id) + Pull(b, id)
  {
    if a != [] {
      assert (a + b)[1..] == a[1..] + b;
      PullAppend(a[1..], b, id);
    } else {
      assert a + b == b;
    }
  }

  /** A list holding no book with the id is left as it is. */
  lemma {:induction false} PullAbsent(list: seq<ReadingBook>, id: string)
    requires forall k :: 0 <= k < |list| ==> list[k].id != id
    ensures Pull(list, id) == list
  {
    if list != [] {
      PullAbsent(list[1..], id);
      assert list == [list[0]] + list[1..];
    }
  }

  /** After adding, the book is the last entry and the only one with its
      id; the list holds at most ten books; it is the list without the
      book's earlier copies, plus the book, less its oldest books when that
      is more than ten. */
  lemma {:induction false} AddedPlacesBookLast(list: seq<ReadingBook>, book: ReadingBook)
    ensures var r := Added(list, book);
            && |r| >= 1 && |r| <= ReadingListCap
            && r[|r| - 1] == book
            && (forall k :: 0 <= k < |r| - 1 ==> r[k].id != book.id)
            && (|Pull(list, book.id)| < ReadingListCap ==> r == Pull(list, book.id) + [book])
            && (|Pull(list, book.id)| >= ReadingListCap ==>
                  r == Pull(list, book.id)[|Pull(list, book.id)| + 1 - ReadingListCap..] + [book])
  {
    var p := Pull(list, book.id);
    var r := Added(list, book);
    AddedShape(p, book, r);
    forall k | 0 <= k < |r| - 1 ensures r[k].id != book.id {
      assert r[k] == p[|p| + 1 - |r| + k];
    }
  }

  /** The cut list is the pulled list's last books, then the book. */
  lemma {:induction false} AddedShape(p: seq<ReadingBook>, book: ReadingBook, r: seq<ReadingBook>)
    requires r == Last(p + [book], ReadingListCap)
    ensures 1 <= |r| <= ReadingListCap && |r| <= |p| + 1
    ensures r == p[|p| + 1 - |r|..] + [book]
  {
    var whole := p + [book];
    assert r == whole[|whole| - |r|..];
    assert whole[|whole| - |r|..] == p[|p| + 1 - |r|..] + [book];
  }

  /** Adding a book already on the list moves it to the end: the other
      books keep their relative order. */
  lemma {:induction false} ReAddMovesToEnd(before: seq<ReadingBook>, earlier: ReadingBook, after: seq<ReadingBook>, book: ReadingBook)
    requires earlier.id == book.id
    requires forall k :: 0 <= k < |before| ==> before[k].id != book.id
    requires forall k :: 0 <= k < |after| ==> after[k].id != book.id
    requires |before| + |after| < ReadingListCap
    ensures Added(before + [earlier] + after, book) == before + after + [book]
  {
    var id := book.id;
    PullAppend(before + [earlier], after, id);
    PullAppend(before, [earlier], id);
    PullAbsent(before, id);
    PullAbsent(after, id);
    assert [earlier][1..] == [];
    assert Pull([earlier], id) == [];
    assert Pull(before + [earlier], id) == before + [];
    var p := Pull(before + [earlier] + after, id);
    assert p == before + after;
    assert Added(before + [earlier] + after, book) == Last(p + [book], ReadingListCap);
  }

  /** The stored reading lists, one per existing user. */
  class UserCollection {
    var readingBooks: map<string, seq<ReadingBook>>

    /** The list a query returns for a user: the stored one, or `[]` when
        the user does not exist. */
    function ListOf(userId: string): seq<ReadingBook>
      reads this
    {
      if userId in readingBooks then readingBooks[userId] else []
    }

    constructor (lists: map<string, seq<ReadingBook>>)
      ensures readingBooks == lists
    {
      readingBooks := lists;
    }

    /** `getReadingList`. */
    method GetReadingList(userId: string) returns (list: seq<ReadingBook>)
      ensures list == ListOf(userId)
      ensures userId !in readingBooks ==> list == []
    {
      if userId in readingBooks {
        list := readingBooks[userId];
      } else {
        list := [];
      }
    }

    /** `addBookToReadingList`: the pull, then the push with its slice;
        both updates leave a missing user missing. Returns the updated
        list. */
    method AddBookToReadingList(userId: string, book: ReadingBook) returns (list: seq<ReadingBook>)
      modifies this
      ensures userId in old(readingBooks) ==> readingBooks == old(readingBooks)[userId := Added(old(readingBooks)[userId], book)]
      ensures userId !in old(readingBooks) ==> readingBooks == old(readingBooks)
      ensures list == ListOf(userId)
    {
      if userId in readingBooks {
        readingBooks := readingBooks[userId := Pull(readingBooks[userId], book.id)];
      }
      if userId in readingBooks {
        readingBooks := readingBooks[userId := Last(readingBooks[userId] + [book], ReadingListCap)];
      }
      list := ListOf(userId);
    }

    /** `removeBookFromReadingList`: the pull alone. Returns the updated
        list. */
    method RemoveBookFromReadingList(userId: string, bookId: string) returns (list: seq<ReadingBook>)
      modifies this
      ensures userId in old(readingBooks) ==> readingBooks == old(readingBooks)[userId := Pull(old(readingBooks)[userId], bookId)]
      ensures userId !in old(readingBooks) ==> readingBooks == old(readingBooks)
      ensures list == ListOf(userId)
    {
      if userId in readingBooks {
        readingBooks := readingBooks[userId := Pull(readingBooks[userId], bookId)];
      }
      list := ListOf(userId);
    }
  }

  /** A list of at most ten distinct books stays one under adding and
      removing. */
  predicate WellFormed(list: seq<ReadingBook>) {
    |list| <= ReadingListCap && forall i, j :: 0 <= i < j < |list| ==> list[i].id != list[j].id
  }

  lemma {:induction false} AddedIsWellFormed(list: seq<ReadingBook>, book: ReadingBook)
    requires WellFormed(list)
    ensures WellFormed(Added(list, book))
  {
    var p := Pull(list, book.id);
    PullDistinct(list, book.id);
    PullMembers(list, book.id);
    forall k | 0 <= k < |p| ensures p[k].id != book.id {
      assert p[k] in p;
    }
    var r := Added(list, book);
    AddedShape(p, book, r);
    DistinctThenFresh(p, book, |p| + 1 - |r|);
  }

  /** A distinct list's tail followed by a book whose id it lacks is
      distinct. */
  lemma {:induction false} DistinctThenFresh(p: seq<ReadingBook>, book: ReadingBook, off: int)
    requires forall i, j :: 0 <= i < j < |p| ==> p[i].id != p[j].id
    requires forall k :: 0 <= k < |p| ==> p[k].id != book.id
    requires 0 <= off <= |p|
    ensures var r := p[off..] + [book];
            forall i, j :: 0 <= i < j < |r| ==> r[i].id != r[j].id
  {
    var r := p[off..] + [book];
    forall i, j | 0 <= i < j < |r| ensures r[i].id != r[j].id {
      assert r[i] == p[off + i];
      if j < |r| - 1 {
        assert r[j] == p[off + j];
      } else {
        assert r[j] == book;
      }
    }
  }

  lemma {:induction false} PullDistinct(list: seq<ReadingBook>, id: string)
    requires forall i, j :: 0 <= i < j < |list| ==> list[i].id != list[j].id
    ensures forall i, j :: 0 <= i < j < |Pull(list, id)| ==> Pull(list, id)[i].id != Pull(list, id)[j].id
  {
    if list != [] {
      var tail := list[1..];
      assert forall i, j :: 0 <= i < j < |tail| ==> tail[i].id != tail[j].id by {
        forall i, j | 0 <= i < j < |tail| ensures tail[i].id != tail[j].id {
          assert tail[i] == list[i + 1] && tail[j] == list[j + 1];
        }
      }
      PullDistinct(tail, id);
      if list[0].id != id {
        PullMembers(tail, id);
        HeadIdFresh(list);
        DistinctCons(list[0], Pull(tail, id));
      }
    }
  }

  /** In a list of distinct ids, the first id appears nowhere after it. */
  lemma {:induction false} HeadIdFresh(list: seq<ReadingBook>)
    requires list != []
    requires forall i, j :: 0 <= i < j < |list| ==> list[i].id != list[j].id
    ensures forall b :: b in list[1..] ==> b.id != list[0].id
  {
    forall b | b in list[1..] ensures b.id != list[0].id {
      var k :| 0 <= k < |list[1..]| && list[1..][k] == b;
      assert list[k + 1] == b;
    }
  }

  /** A book put in front of distinct books with other ids keeps the ids
      distinct. */
  lemma {:induction false} DistinctCons(b: ReadingBook, rest: seq<ReadingBook>)
    requires forall i, j :: 0 <= i < j < |rest| ==> rest[i].id != rest[j].id
    requires forall x :: x in rest ==> x.id != b.id
    ensures var r := [b] + rest;
            forall i, j :: 0 <= i < j < |r| ==> r[i].id != r[j].id
  {
    var r := [b] + rest;
    forall i, j | 0 <= i < j < |r| ensures r[i].id != r[j].id {
      assert r[j] == rest[j - 1];
      if i == 0 {
        assert rest[j - 1] in rest;
      } else {
        assert r[i] == rest[i - 1];
      }
    }
  }

  lemma {:induction false} RemovedIsWellFormed(list: seq<ReadingBook>, id: string)
    requires WellFormed(list)
    ensures WellFormed(Pull(list, id))
    ensures forall b :: b in Pull(list, id) <==> b in list && b.id != id
  {
    PullDistinct(list, id);
    PullMembers(list, id);
  }
}
