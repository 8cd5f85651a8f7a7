/**
 * `BookIterator`: a cursor over a list of books. `__next__` hands out the
 * book under the cursor and advances it, and raises `StopIteration` (here:
 * answers `None`) once the list is used up; `__len__` and `__getitem__` look
 * at the whole list whatever the cursor says.
 *
 * The ghost field `yielded` records what `__next__` has handed out so far.
 */
module Iteration {
  import opened Wrappers

  class BookIterator<T> {
    var books: seq<T>
    var index: nat
    ghost var yielded: seq<T>

    /** The cursor stays within the list, and what was handed out is the list up to it. */
    ghost predicate Valid()
      reads this
    {
      index <= |books| && yielded == books[..index]
    }

    /** `BookIterator(books)`; `None` stands for an empty list. */
    constructor (books: Option<seq<T>>)
      ensures Valid()
      ensures this.books == (if books.None? then [] else books.value)
      ensures index == 0 && yielded == []
    {
      this.books := if books.None? then [] else books.value;
      index := 0;
      yielded := [];
    }

    /** `__next__`: the next book and one step on, or `None` (StopIteration) with nothing changed. */
    method Next() returns (book: Option<T>)
      requires Valid()
      modifies this`index, this`yielded
      ensures Valid()
      ensures old(index) < |books| ==>
        book == Some(books[old(index)]) && index == old(index) + 1 && yielded == old(yielded) + [book.value]
      ensures old(index) >= |books| ==> book.None? && index == old(index) && yielded == books
    {
      if index < |books| {
        book := Some(books[index]);
        index := index + 1;
        yielded := yielded + [book.value];
        assert books[..index] == books[..index - 1] + [books[index - 1]];
      } else {
        book := None;
      }
    }

    /** `__len__`: the length of the whole list. */
    method Len() returns (n: nat)
      ensures n == |books|
    {
      n := |books|;
    }

    /**
     * `__getitem__(i)`: Python list indexing, negative positions counting from
     * the end; `None` where the list raises IndexError.
     */
    method GetItem(i: int) returns (book: Option<T>)
      ensures book.Some? <==> -|books| <= i < |books|
      ensures 0 <= i < |books| ==> book == Some(books[i])
      ensures -|books| <= i < 0 ==> book == Some(books[|books| + i])
    {
      if 0 <= i < |books| {
        book := Some(books[i]);
      } else if -|books| <= i < 0 {
        book := Some(books[|books| + i]);
      } else {
        book := None;
      }
    }
  }

  /**
   * `for book in iterator` (and `list(iterator)`): call `__next__` until it
   * stops. The books come out in list order, from the cursor to the end.
   */
  method Drain<T>(it: BookIterator<T>) returns (out: seq<T>)
    requires it.Valid()
    modifies it`index, it`yielded
    ensures it.Valid() && it.books == old(it.books)
    ensures out == old(it.books)[old(it.index)..]
    ensures it.index == |it.books| && it.yielded == it.books
  {
    out := [];
    var done := false;
    while !done
      invariant it.Valid() && it.books == old(it.books)
      invariant old(it.index) <= it.index
      invariant out == it.books[old(it.index)..it.index]
      invariant done ==> it.index == |it.books|
      decreases |it.books| - it.index, if done then 0 else 1
    {
      var book := it.Next();
      if book.Some? {
        out := out + [book.value];
      } else {
        done := true;
      }
    }
  }

  /** A fresh iterator hands out every book, in order, and then stops. */
  method DrainFresh<T>(books: Option<seq<T>>) returns (out: seq<T>, len: nat)
    ensures out == (if books.None? then [] else books.value)
    ensures len == |out|
  {
    var it := new BookIterator(books);
    out := Drain(it);
    len := it.Len();
  }
}
