/**
 * The lending engine: `borrow_book` and `return_book` of the borrowing
 * manager, acting on the catalog's book records in place.
 *
 * The catalog state is a value (`Catalog`): the list of book records, the
 * number of times the catalog was saved (`save_books()`), and the
 * "book now available" notices that a return emits for a dequeued requester.
 * `Borrow` and `Return` state each operation's effect on that value; the
 * class `BorrowingManager` performs the same steps imperatively on its fields
 * and is proved to agree with them.
 */
module Lending {
  import opened Wrappers
  import WaitingList

  /** The fields of a catalog book that lending reads and writes. */
  datatype Book = Book(
    title: string,
    copiesAvailable: int,
    loanedCount: int,
    popularityCount: int,
    isLoaned: bool,
    waitingList: WaitingList.Queue)

  /** A "book `title` is now available for `user`" notice, emitted by a return. */
  datatype Notice = Notice(title: string, user: string)

  /** What the engine can change: the records, the save count, the notices. */
  datatype Catalog = Catalog(books: seq<Book>, saves: nat, notices: seq<Notice>)

  /** Python truthiness of the optional `username` argument: present and non-empty. */
  predicate Named(username: Option<string>)
  {
    username.Some? && username.value != ""
  }

  /** The index of the first book titled `title`: `next((b for b in books if b.title == title), None)`. */
  function FirstWithTitle(books: seq<Book>, title: string): (r: Option<nat>)
    ensures r.Some? ==> r.value < |books| && books[r.value].title == title
    ensures r.Some? ==> forall j :: 0 <= j < r.value ==> books[j].title != title
    ensures r.None? <==> forall j :: 0 <= j < |books| ==> books[j].title != title
  {
    if books == [] then None
    else if books[0].title == title then Some(0)
    else
      match FirstWithTitle(books[1..], title)
      case None => None
      case Some(i) => Some(i + 1)
  }

  /** Records are changed only at index `i` (if any), and titles never change. */
  ghost predicate OnlyTouched(before: seq<Book>, after: seq<Book>, i: Option<nat>)
  {
    && |after| == |before|
    && (forall j :: 0 <= j < |before| ==> after[j].title == before[j].title)
    && (forall j :: 0 <= j < |before| && Some(j) != i ==> after[j] == before[j])
  }

  ghost predicate NonNegativeCopies(books: seq<Book>)
  {
    forall j :: 0 <= j < |books| ==> books[j].copiesAvailable >= 0
  }

  /** Handing out one copy. */
  function Lend(b: Book): Book
  {
    var left := b.copiesAvailable - 1;
    b.(copiesAvailable := left,
       loanedCount := b.loanedCount + 1,
       popularityCount := b.popularityCount + 1,
       isLoaned := if left == 0 then true else b.isLoaned)
  }

  /** Taking one copy back and removing the head of the waiting list. */
  function TakeBack(b: Book): Book
  {
    var back := b.copiesAvailable + 1;
    b.(copiesAvailable := back,
       isLoaned := if back > 0 then false else b.isLoaned,
       waitingList := WaitingList.Remove(b.waitingList).1)
  }

  /**
   * `borrow_book(title, username)`: lend a copy if one is free; otherwise queue
   * a named requester; otherwise refuse. The catalog is saved exactly when the
   * answer is true, and only the first book with that title is touched.
   */
  function Borrow(c: Catalog, title: string, username: Option<string>): (r: (bool, Catalog))
    ensures FirstWithTitle(c.books, title).None? ==> r == (false, c)
    ensures r.0 ==> r.1.saves == c.saves + 1
    ensures !r.0 ==> r.1 == c
    ensures r.1.notices == c.notices
    ensures OnlyTouched(c.books, r.1.books, FirstWithTitle(c.books, title))
    ensures NonNegativeCopies(c.books) ==> NonNegativeCopies(r.1.books)
    ensures FirstWithTitle(c.books, title).Some? ==>
      var i := FirstWithTitle(c.books, title).value;
      var b, b' := c.books[i], r.1.books[i];
      && (b.copiesAvailable > 0 ==>
            && r.0
            && b'.copiesAvailable == b.copiesAvailable - 1
            && b'.loanedCount == b.loanedCount + 1
            && b'.popularityCount == b.popularityCount + 1
            && b'.waitingList == b.waitingList
            && (b'.copiesAvailable == 0 ==> b'.isLoaned)
            && (b'.copiesAvailable != 0 ==> b'.isLoaned == b.isLoaned))
      && (b.copiesAvailable <= 0 ==>
            && (r.0 <==> Named(username))
            && b'.copiesAvailable == b.copiesAvailable
            && b'.loanedCount == b.loanedCount
            && b'.popularityCount == b.popularityCount
            && b'.isLoaned == b.isLoaned
            && (Named(username) ==> b'.waitingList == b.waitingList + [username.value]))
  {
    match FirstWithTitle(c.books, title)
    case None => (false, c)
    case Some(i) =>
      var b := c.books[i];
      if b.copiesAvailable > 0 then
        (true, c.(books := c.books[i := Lend(b)], saves := c.saves + 1))
      else if Named(username) then
        var queued := b.(waitingList := WaitingList.Add(b.waitingList, username.value));
        (true, c.(books := c.books[i := queued], saves := c.saves + 1))
      else
        (false, c)
  }

  /**
   * `return_book(title)`: one more copy is available, the head of the waiting
   * list (if any) is removed and notified, and the catalog is saved. Nothing
   * bounds the copy count from above. Loan and popularity counters stay put.
   */
  function Return(c: Catalog, title: string): (r: (bool, Catalog))
    ensures r.0 <==> FirstWithTitle(c.books, title).Some?
    ensures !r.0 ==> r.1 == c
    ensures r.0 ==> r.1.saves == c.saves + 1
    ensures OnlyTouched(c.books, r.1.books, FirstWithTitle(c.books, title))
    ensures NonNegativeCopies(c.books) ==> NonNegativeCopies(r.1.books)
    ensures FirstWithTitle(c.books, title).Some? ==>
      var i := FirstWithTitle(c.books, title).value;
      var b, b' := c.books[i], r.1.books[i];
      && b'.copiesAvailable == b.copiesAvailable + 1
      && (b.copiesAvailable >= 0 ==> !b'.isLoaned)
      && (b.copiesAvailable < 0 ==> b'.isLoaned == b.isLoaned)
      && b'.loanedCount == b.loanedCount
      && b'.popularityCount == b.popularityCount
      && (b.waitingList == [] ==> b'.waitingList == [] && r.1.notices == c.notices)
      && (b.waitingList != [] ==>
            && [b.waitingList[0]] + b'.waitingList == b.waitingList
            && r.1.notices == c.notices + (if b.waitingList[0] != "" then [Notice(title, b.waitingList[0])] else []))
  {
    match FirstWithTitle(c.books, title)
    case None => (false, c)
    case Some(i) =>
      var b := c.books[i];
      var next := WaitingList.Remove(b.waitingList).0;
      var notices := if Named(next) then c.notices + [Notice(title, next.value)] else c.notices;
      (true, Catalog(c.books[i := TakeBack(b)], c.saves + 1, notices))
  }

  /** A request as the presentation layer issues it. */
  datatype Request = BorrowRequest(title: string, username: Option<string>) | ReturnRequest(title: string)

  function Apply(c: Catalog, req: Request): (bool, Catalog)
  {
    match req
    case BorrowRequest(t, u) => Borrow(c, t, u)
    case ReturnRequest(t) => Return(c, t)
  }

  /** The answers to a series of requests, and the catalog after them. */
  function Run(c: Catalog, reqs: seq<Request>): (r: (seq<bool>, Catalog))
    ensures |r.0| == |reqs|
    decreases |reqs|
  {
    if reqs == [] then ([], c)
    else
      var (ok, c') := Apply(c, reqs[0]);
      var (oks, c'') := Run(c', reqs[1..]);
      ([ok] + oks, c'')
  }

  function CountTrue(s: seq<bool>): nat
  {
    if s == [] then 0 else (if s[0] then 1 else 0) + CountTrue(s[1..])
  }

  /** The catalog is saved once per true answer and never otherwise. */
  lemma {:induction false} SavesCountSuccesses(c: Catalog, reqs: seq<Request>)
    ensures Run(c, reqs).1.saves == c.saves + CountTrue(Run(c, reqs).0)
    decreases |reqs|
  {
    if reqs != [] {
      var (ok, c') := Apply(c, reqs[0]);
      SavesCountSuccesses(c', reqs[1..]);
      assert Run(c, reqs).0 == [ok] + Run(c', reqs[1..]).0;
      assert ([ok] + Run(c', reqs[1..]).0)[1..] == Run(c', reqs[1..]).0;
    }
  }

  /** However requests are interleaved, no copy count that starts non-negative goes negative. */
  lemma {:induction false} CopiesStayNonNegative(c: Catalog, reqs: seq<Request>)
    requires NonNegativeCopies(c.books)
    ensures NonNegativeCopies(Run(c, reqs).1.books)
    decreases |reqs|
  {
    if reqs != [] {
      CopiesStayNonNegative(Apply(c, reqs[0]).1, reqs[1..]);
    }
  }

  /**
   * Loans and popularity move together: every request leaves each book's
   * `popularityCount - loanedCount` and title as they were.
   */
  lemma {:induction false} PopularityTracksLoans(c: Catalog, reqs: seq<Request>)
    ensures |Run(c, reqs).1.books| == |c.books|
    ensures forall j :: 0 <= j < |c.books| ==>
      var b, b' := c.books[j], Run(c, reqs).1.books[j];
      b'.title == b.title && b'.popularityCount - b'.loanedCount == b.popularityCount - b.loanedCount
    decreases |reqs|
  {
    if reqs != [] {
      var c' := Apply(c, reqs[0]).1;
      PopularityTracksLoans(c', reqs[1..]);
    }
  }

  /** Requests for a title the catalog lacks are all refused and change nothing, however often repeated. */
  lemma {:induction false} UnknownTitleIsInert(c: Catalog, title: string, reqs: seq<Request>)
    requires FirstWithTitle(c.books, title).None?
    requires forall k :: 0 <= k < |reqs| ==> reqs[k].title == title
    ensures Run(c, reqs).1 == c
    ensures forall k :: 0 <= k < |reqs| ==> !Run(c, reqs).0[k]
    decreases |reqs|
  {
    if reqs != [] {
      UnknownTitleIsInert(c, title, reqs[1..]);
      assert Run(c, reqs).0 == [false] + Run(c, reqs[1..]).0;
    }
  }

  function Returns(title: string, k: nat): (r: seq<Request>)
    ensures |r| == k && forall j :: 0 <= j < k ==> r[j] == ReturnRequest(title)
  {
    if k == 0 then [] else [ReturnRequest(title)] + Returns(title, k - 1)
  }

  function NoticesFor(title: string, users: seq<string>): (r: seq<Notice>)
    ensures |r| == |users| && forall j :: 0 <= j < |users| ==> r[j] == Notice(title, users[j])
  {
    if users == [] then [] else [Notice(title, users[0])] + NoticesFor(title, users[1..])
  }

  /**
   * FIFO fairness: `k` returns of a title whose waiting list holds the named
   * requesters `w` notify `w[0]`, ..., `w[k-1]` in that order and leave `w[k..]`.
   */
  lemma {:induction false} ReturnsNotifyInQueueOrder(c: Catalog, title: string, i: nat, w: seq<string>, k: nat)
    requires FirstWithTitle(c.books, title) == Some(i) && c.books[i].waitingList == w
    requires k <= |w| && forall u :: u in w ==> u != ""
    ensures FirstWithTitle(Run(c, Returns(title, k)).1.books, title) == Some(i)
    ensures Run(c, Returns(title, k)).1.notices == c.notices + NoticesFor(title, w[..k])
    ensures Run(c, Returns(title, k)).1.books[i].waitingList == w[k..]
  {
    RunReturnsIsReturnTimes(c, title, k);
    ReturnTimesNotifiesInOrder(c, title, i, w, k);
  }

  /** `k` returns of the same title in a row. */
  function ReturnTimes(c: Catalog, title: string, k: nat): Catalog
    decreases k
  {
    if k == 0 then c else ReturnTimes(Return(c, title).1, title, k - 1)
  }

  lemma {:induction false} RunReturnsIsReturnTimes(c: Catalog, title: string, k: nat)
    ensures Run(c, Returns(title, k)).1 == ReturnTimes(c, title, k)
    decreases k
  {
    if k > 0 {
      RunReturnsStep(c, title, k);
      RunReturnsIsReturnTimes(Return(c, title).1, title, k - 1);
    }
  }

  lemma {:induction false} ReturnTimesNotifiesInOrder(c: Catalog, title: string, i: nat, w: seq<string>, k: nat)
    requires FirstWithTitle(c.books, title) == Some(i) && c.books[i].waitingList == w
    requires k <= |w| && forall u :: u in w ==> u != ""
    ensures FirstWithTitle(ReturnTimes(c, title, k).books, title) == Some(i)
    ensures ReturnTimes(c, title, k).notices == c.notices + NoticesFor(title, w[..k])
    ensures ReturnTimes(c, title, k).books[i].waitingList == w[k..]
    decreases k
  {
    if k == 0 {
      assert w[..0] == [] && w[0..] == w;
    } else {
      var c1 := ReturnPopsHead(c, title);
      ReturnTimesNotifiesInOrder(c1, title, i, w[1..], k - 1);
      assert w[1..][k - 1..] == w[k..];
      NoticesForHead(c.notices, title, w, k);
    }
  }

  lemma NoticesForHead(earlier: seq<Notice>, title: string, w: seq<string>, k: nat)
    requires 0 < k <= |w|
    ensures earlier + [Notice(title, w[0])] + NoticesFor(title, w[1..][..k - 1]) == earlier + NoticesFor(title, w[..k])
  {
    assert w[..k][1..] == w[1..][..k - 1];
    var head, tail := [Notice(title, w[0])], NoticesFor(title, w[1..][..k - 1]);
    assert NoticesFor(title, w[..k]) == head + tail;
    assert earlier + head + tail == earlier + (head + tail);
  }

  /** One return of a title whose queue head is named: the head is notified and popped. */
  lemma ReturnPopsHead(c: Catalog, title: string) returns (c1: Catalog)
    requires FirstWithTitle(c.books, title).Some?
    requires c.books[FirstWithTitle(c.books, title).value].waitingList != []
    requires forall u :: u in c.books[FirstWithTitle(c.books, title).value].waitingList ==> u != ""
    ensures c1 == Return(c, title).1
    ensures var i, w := FirstWithTitle(c.books, title).value, c.books[FirstWithTitle(c.books, title).value].waitingList;
      && FirstWithTitle(c1.books, title) == Some(i)
      && c1.books[i].waitingList == w[1..]
      && c1.notices == c.notices + [Notice(title, w[0])]
      && forall u :: u in c1.books[i].waitingList ==> u != ""
  {
    var i := FirstWithTitle(c.books, title).value;
    var w := c.books[i].waitingList;
    assert w[0] in w;
    assert forall u :: u in w[1..] ==> u in w;
    c1 := Return(c, title).1;
    FirstIsLeftmost(c1.books, title, i);
  }

  lemma RunReturnsStep(c: Catalog, title: string, k: nat)
    requires k > 0
    ensures Run(c, Returns(title, k)).1 == Run(Return(c, title).1, Returns(title, k - 1)).1
  {
    assert Returns(title, k)[0] == ReturnRequest(title);
    assert Returns(title, k)[1..] == Returns(title, k - 1);
  }

  function Borrows(title: string, users: seq<string>): (r: seq<Request>)
    ensures |r| == |users| && forall j :: 0 <= j < |users| ==> r[j] == BorrowRequest(title, Some(users[j]))
  {
    if users == [] then [] else [BorrowRequest(title, Some(users[0]))] + Borrows(title, users[1..])
  }

  /** Borrow requests by each of `users` in turn, on the same title. */
  function QueueAll(c: Catalog, title: string, users: seq<string>): Catalog
    decreases |users|
  {
    if users == [] then c else QueueAll(Borrow(c, title, Some(users[0])).1, title, users[1..])
  }

  lemma {:induction false} RunBorrowsIsQueueAll(c: Catalog, title: string, users: seq<string>)
    ensures Run(c, Borrows(title, users)).1 == QueueAll(c, title, users)
    decreases |users|
  {
    if users != [] {
      assert Borrows(title, users)[1..] == Borrows(title, users[1..]);
      RunBorrowsIsQueueAll(Borrow(c, title, Some(users[0])).1, title, users[1..]);
    }
  }

  /** While no copy is free, named requesters join the waiting list in the order they ask. */
  lemma {:induction false} QueueAllAppends(c: Catalog, title: string, i: nat, users: seq<string>)
    requires FirstWithTitle(c.books, title) == Some(i) && c.books[i].copiesAvailable <= 0
    requires forall u :: u in users ==> u != ""
    ensures FirstWithTitle(QueueAll(c, title, users).books, title) == Some(i)
    ensures QueueAll(c, title, users).books[i].waitingList == c.books[i].waitingList + users
    ensures QueueAll(c, title, users).books[i].copiesAvailable == c.books[i].copiesAvailable
    ensures QueueAll(c, title, users).notices == c.notices
    decreases |users|
  {
    if users == [] {
      assert c.books[i].waitingList + [] == c.books[i].waitingList;
    } else {
      assert users[0] in users;
      assert forall u :: u in users[1..] ==> u in users;
      var c1 := QueueOne(c, title, i, users[0]);
      assert QueueAll(c, title, users) == QueueAll(c1, title, users[1..]);
      QueueAllAppends(c1, title, i, users[1..]);
      AppendHead(c.books[i].waitingList, users);
    }
  }

  lemma AppendHead(w: seq<string>, users: seq<string>)
    requires users != []
    ensures w + [users[0]] + users[1..] == w + users
  {
    assert [users[0]] + users[1..] == users;
  }

  /** One borrow by a named requester while no copy is free: the requester is queued. */
  lemma QueueOne(c: Catalog, title: string, i: nat, user: string) returns (c1: Catalog)
    requires FirstWithTitle(c.books, title) == Some(i) && c.books[i].copiesAvailable <= 0
    requires user != ""
    ensures c1 == Borrow(c, title, Some(user)).1
    ensures FirstWithTitle(c1.books, title) == Some(i)
    ensures c1.books[i].waitingList == c.books[i].waitingList + [user]
    ensures c1.books[i].copiesAvailable == c.books[i].copiesAvailable
    ensures c1.notices == c.notices
  {
    c1 := Borrow(c, title, Some(user)).1;
    FirstIsLeftmost(c1.books, title, i);
  }

  lemma {:induction false} RunConcat(c: Catalog, a: seq<Request>, b: seq<Request>)
    ensures Run(c, a + b).1 == Run(Run(c, a).1, b).1
    decreases |a|
  {
    if a == [] {
      assert a + b == b;
    } else {
      assert (a + b)[0] == a[0] && (a + b)[1..] == a[1..] + b;
      var c1 := Apply(c, a[0]).1;
      assert Run(c, a + b).1 == Run(c1, a[1..] + b).1;
      assert Run(c, a).1 == Run(c1, a[1..]).1;
      RunConcat(c1, a[1..], b);
    }
  }

  /**
   * FIFO fairness end to end: on a title with no free copy and nobody waiting,
   * requesters who ask in the order `users` are notified in that order by
   * the next `|users|` returns, and the waiting list is empty again.
   */
  lemma FirstQueuedFirstNotified(c: Catalog, title: string, i: nat, users: seq<string>)
    requires FirstWithTitle(c.books, title) == Some(i)
    requires c.books[i].copiesAvailable <= 0 && c.books[i].waitingList == []
    requires forall u :: u in users ==> u != ""
    ensures var c' := Run(c, Borrows(title, users) + Returns(title, |users|)).1;
      && FirstWithTitle(c'.books, title) == Some(i)
      && c'.notices == c.notices + NoticesFor(title, users)
      && c'.books[i].waitingList == []
  {
    var queued := QueueThenRun(c, title, i, users);
    ReturnsNotifyInQueueOrder(queued, title, i, users, |users|);
    assert users[..|users|] == users && users[|users|..] == [];
  }

  /** The borrow phase of `FirstQueuedFirstNotified`: afterwards every requester waits, in order. */
  lemma QueueThenRun(c: Catalog, title: string, i: nat, users: seq<string>) returns (queued: Catalog)
    requires FirstWithTitle(c.books, title) == Some(i)
    requires c.books[i].copiesAvailable <= 0 && c.books[i].waitingList == []
    requires forall u :: u in users ==> u != ""
    ensures Run(c, Borrows(title, users) + Returns(title, |users|)).1 == Run(queued, Returns(title, |users|)).1
    ensures FirstWithTitle(queued.books, title) == Some(i)
    ensures queued.notices == c.notices && queued.books[i].waitingList == users
  {
    queued := QueueAll(c, title, users);
    RunConcat(c, Borrows(title, users), Returns(title, |users|));
    RunBorrowsIsQueueAll(c, title, users);
    QueueAllAppends(c, title, i, users);
    assert [] + users == users;
  }

  /**
   * The lending engine in its imperative form. The fields are the catalog it
   * acts on; each operation is proved to have exactly the effect that
   * `Borrow` or `Return` states.
   */
  class BorrowingManager {
    var books: seq<Book>
    var saves: nat
    var notices: seq<Notice>

    ghost function State(): Catalog
      reads this
    {
      Catalog(books, saves, notices)
    }

    constructor (books: seq<Book>)
      ensures State() == Catalog(books, 0, [])
    {
      this.books := books;
      saves := 0;
      notices := [];
    }

    /** The lookup by title: a linear scan that stops at the first match. */
    method FindBook(title: string) returns (found: Option<nat>)
      ensures found == FirstWithTitle(books, title)
    {
      var k := 0;
      while k < |books|
        invariant 0 <= k <= |books|
        invariant forall j :: 0 <= j < k ==> books[j].title != title
      {
        if books[k].title == title {
          FirstIsLeftmost(books, title, k);
          return Some(k);
        }
        k := k + 1;
      }
      return None;
    }

    method BorrowBook(title: string, username: Option<string>) returns (ok: bool)
      modifies this
      ensures (ok, State()) == Borrow(old(State()), title, username)
    {
      var found := FindBook(title);
      if found.None? {
        return false;
      }
      var i := found.value;
      var book := books[i];
      if book.copiesAvailable > 0 {
        book := book.(copiesAvailable := book.copiesAvailable - 1);
        book := book.(loanedCount := book.loanedCount + 1);
        book := book.(popularityCount := book.popularityCount + 1);
        if book.copiesAvailable == 0 {
          book := book.(isLoaned := true);
        }
        books := books[i := book];
        saves := saves + 1;
        return true;
      } else if Named(username) {
        book := book.(waitingList := WaitingList.Add(book.waitingList, username.value));
        books := books[i := book];
        saves := saves + 1;
        return true;
      } else {
        return false;
      }
    }

    method ReturnBook(title: string) returns (ok: bool)
      modifies this
      ensures (ok, State()) == Return(old(State()), title)
    {
      var found := FindBook(title);
      if found.None? {
        return false;
      }
      var i := found.value;
      var book := books[i];
      book := book.(copiesAvailable := book.copiesAvailable + 1);
      if book.copiesAvailable > 0 {
        book := book.(isLoaned := false);
      }
      var (next, rest) := WaitingList.Remove(book.waitingList);
      book := book.(waitingList := rest);
      if Named(next) {
        notices := notices + [Notice(title, next.value)];
      }
      books := books[i := book];
      saves := saves + 1;
      return true;
    }
  }

  lemma FirstIsLeftmost(books: seq<Book>, title: string, k: nat)
    requires k < |books| && books[k].title == title
    requires forall j :: 0 <= j < k ==> books[j].title != title
    ensures FirstWithTitle(books, title) == Some(k)
  {
  }
}
