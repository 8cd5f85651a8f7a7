# Library lending core, modelled in Dafny

This project models the core of a small library-management application:

- **Lending.** `BorrowingManager.borrow_book` lends a free copy of a title. When no copy is free, it queues a named requester on that book's waiting list. `return_book` takes a copy back and notifies the requester at the head of the waiting list.
- **Logging.** The `Logger.log_action` decorator writes one line per wrapped call to the log file, then passes the call's result or exception through.
- **Users.** `AuthManager` handles registration, login and seeding of the default `admin` account.
- **Iteration.** `BookIterator` is a cursor over a list of books that the search and display screens consume.

Modules:

| module | file | what it holds |
|---|---|---|
| `Wrappers` | `wrappers.dfy` | `Option` |
| `WaitingList` | `waiting_list.dfy` | the per-book waiting list, as a FIFO queue of names |
| `Lending` | `borrowing_manager.dfy` | book records and the catalog value; `Borrow`/`Return` as specification functions; the `BorrowingManager` class that performs them in place and is proved equal to them; lemmas over series of requests |
| `ActionLog` | `logger.dfy` | Python truthiness, the message table, `str.title`, the line a wrapped call writes, and the `Logger` class whose log only grows |
| `Auth` | `auth_manager.dfy` | the user table, `AuthManager` and its methods, and lemmas relating register and login |
| `Iteration` | `book_iterator.dfy` | `BookIterator`, and the `for`/`list()` loops that drain it |

The catalog store, the CSV files, the wrapped functions' own work and the password hash are outside the model. Each is either state of a class (a `seq`, plus a counter for the saves) or a parameter, such as the outcome of a wrapped call or the hash function.

Points where the code's behaviour may be unexpected:

- `return_book` adds a copy unconditionally, and no `total_copies` field exists, so nothing bounds the available copies from above.
- Borrow and return answer a plain `bool`.
- `login` is not in the logger's message table. The table has `log_in`, so a login is logged as `Login successfully`.
- Every `register`/`login` answer is a non-empty string, so each call is logged as successful, even a refused one.

## Model

| member | source | states |
|---|---|---|
| Lending.FirstWithTitle | classes/BorrowingManager.py:15 | the index found holds the title and no earlier book does; `None` when no book has it |
| Lending.Borrow | classes/BorrowingManager.py:12-42 | unknown title: false, nothing changes; free copy: one fewer copy, loan and popularity counters +1, `is_loaned` set when copies reach 0; no free copy: true exactly for a non-empty username, which joins the waiting-list tail; saved exactly on true; only the first matching book changes; non-negative copies stay non-negative |
| Lending.Return | classes/BorrowingManager.py:48-68 | true exactly when the title exists; one more copy; `is_loaned` cleared when copies become positive, else kept; counters unchanged; waiting-list head removed and, when it is a non-empty name, notified; saved once; only that book changes |
| Lending.SavesCountSuccesses | classes/BorrowingManager.py:14-68 | over any series of requests, the catalog is saved once per true answer and never otherwise |
| Lending.CopiesStayNonNegative | classes/BorrowingManager.py:21-24 | over any series of requests, copy counts that start non-negative never go negative |
| Lending.PopularityTracksLoans | classes/BorrowingManager.py:21-24 | over any series of requests, each book keeps its title and its `popularity_count - loaned_count` |
| Lending.UnknownTitleIsInert | classes/BorrowingManager.py:15-54 | requests for a missing title are all refused and leave the catalog unchanged |
| Lending.ReturnsNotifyInQueueOrder | classes/BorrowingManager.py:57-66 | `k` returns notify the first `k` queued requesters in queue order and leave the rest queued |
| Lending.QueueAllAppends | classes/BorrowingManager.py:33-39 | while no copy is free, named requesters join the waiting list in the order they ask |
| Lending.FirstQueuedFirstNotified | classes/BorrowingManager.py:33-66 | the users queued on an empty waiting list are notified, by as many returns, exactly in their order of asking, leaving the list empty |
| Lending.BorrowingManager.constructor | classes/BorrowingManager.py:8-9 | the manager starts on the given book records, no saves and no notices |
| Lending.BorrowingManager.FindBook | classes/BorrowingManager.py:15 | the linear scan returns the first book with the title, or `None` |
| Lending.BorrowingManager.BorrowBook | classes/BorrowingManager.py:12-45 | the in-place update gives the answer and new state that `Borrow` prescribes |
| Lending.BorrowingManager.ReturnBook | classes/BorrowingManager.py:48-71 | the in-place update gives the answer and new state that `Return` prescribes |
| WaitingList.Add | classes/BorrowingManager.py:36 | the name joins at the tail; earlier entries are kept in order |
| WaitingList.Remove | classes/BorrowingManager.py:62 | an empty queue gives `None` and stays empty; otherwise the head comes out and the rest remains |
| WaitingList.AddAllAppends | classes/BorrowingManager.py:36 | adding names one by one appends them in order |
| WaitingList.RemoveManyIsPrefix | classes/BorrowingManager.py:62 | `k` removals pop exactly the first `k` entries, oldest first |
| WaitingList.FirstComeFirstServed | classes/BorrowingManager.py:36-62 | names added to an empty queue come out in the same order |
| ActionLog.TitleFrom | classes/Logger.py:26 | `str.title`: length kept, non-letters kept, each letter upper-case exactly when it begins a word |
| ActionLog.SpaceOut | classes/Logger.py:26 | `replace('_', ' ')`: length kept, each underscore becomes a space, nothing else changes |
| ActionLog.DefaultPhrase | classes/Logger.py:26 | the default action text: no underscores, letters capitalised exactly at word starts |
| ActionLog.Lead | classes/Logger.py:30-36 | the text before the status ends in a space |
| ActionLog.ResultLine | classes/Logger.py:27-36 | the line ends in ` successfully` exactly when the result is truthy, and in ` fail` exactly when it is not |
| ActionLog.StatusIsLastWord | classes/Logger.py:27-36 | the two status words tell the two line endings apart |
| ActionLog.Wrap | classes/Logger.py:7-48 | a search line shows the query and the field (`title` as `name`); other lines show action and status; an exception is logged under the default phrase and re-raised; a search with fewer than three arguments raises `tuple index out of range`; otherwise the result passes through and the line's last word reflects its truthiness |
| ActionLog.Logger.constructor | classes/Logger.py:2-3 | the logger keeps its file name and the file's existing lines |
| ActionLog.Logger.LogAction | classes/Logger.py:5-49 | exactly one line is appended, earlier lines stay, and the outcome is passed on as `Wrap` prescribes |
| ActionLog.NonEmptyStringLogsSuccess | classes/Logger.py:27-36 | a non-search call that returns a non-empty string is logged as `<action> successfully` |
| ActionLog.TablePhrases | classes/Logger.py:13-26 | borrow, return, register and search are logged under their table phrases |
| ActionLog.LoginUsesDefaultPhrase | classes/Logger.py:13-26 | `login` has no table phrase and is logged as `Login` |
| ActionLog.LoginTitleCased | classes/Logger.py:26 | the default phrase of `login` is `Login` |
| ActionLog.LowerTailStaysLower | classes/Logger.py:26 | inside a word, `str.title` leaves lower-case letters alone |
| Auth.FirstRow | classes/AuthManager.py:82-84 | the first row with the username (the one `.iloc[0]` picks), or `None` exactly when the name is absent |
| Auth.FirstRowAfterAppend | classes/AuthManager.py:69 | appending a row leaves existing users' first rows in place, and a new name's first row is the appended one |
| Auth.LoginMessage | classes/AuthManager.py:78-88 | one of the two login messages; success exactly when the user exists and the password's hash matches the stored hash |
| Auth.RegisterKeepsNamesUnique | classes/AuthManager.py:61-69 | a registration that goes through keeps usernames unique |
| Auth.LoginAfterRegister | classes/AuthManager.py:64-88 | after registering a name and password, logging in with that pair succeeds |
| Auth.RegisterKeepsOtherLogins | classes/AuthManager.py:69-84 | registering one name changes no other user's login answer |
| Auth.RegisterAlwaysLogsSuccess | classes/AuthManager.py:55-75 | every register answer, refusal included, is logged as `registered successfully` |
| Auth.LoginAlwaysLogsSuccess | classes/AuthManager.py:77-88 | every login answer, failure included, is logged as `Login successfully` |
| Auth.RegisterAnswersLogSuccess | classes/AuthManager.py:55-75 | both answers of `register`, the refusal and the success, are logged as `registered successfully` |
| Auth.LoginAnswersLogSuccess | classes/AuthManager.py:77-88 | both answers of `login`, the failure and the success, are logged as `Login successfully` |
| Auth.AuthManager.constructor | classes/AuthManager.py:8-11 | an empty stored table is seeded with the admin row and saved once; a non-empty one is kept and not saved |
| Auth.AuthManager.InitializeDefaultUser | classes/AuthManager.py:17-29 | an empty table becomes the single row (`admin`, hash of `admin123`) with one save; any other table is untouched |
| Auth.AuthManager.Register | classes/AuthManager.py:56-75 | a taken name is refused, with no change and no save; a new name is appended with its password's hash and saved once |
| Auth.AuthManager.Login | classes/AuthManager.py:78-88 | the answer is `LoginMessage` on the current table: success exactly when the name exists and the hash matches |
| Iteration.BookIterator.constructor | classes/BookIterator.py:2-6 | `None` becomes the empty list; the cursor starts at 0 |
| Iteration.BookIterator.Next | classes/BookIterator.py:11-17 | below the end: the book under the cursor, and the cursor moves one step; at the end: stop, with nothing changed |
| Iteration.BookIterator.Len | classes/BookIterator.py:19-20 | the length of the whole list, whatever the cursor |
| Iteration.BookIterator.GetItem | classes/BookIterator.py:22-23 | Python indexing: defined exactly on `-len <= i < len`, and negative positions count from the end |
| Iteration.Drain | GUI/SearchAndDisplayGui.py:47 | a `for` loop over the iterator yields the books from the cursor to the end, in order, and leaves the cursor at the end |
| Iteration.DrainFresh | GUI/SearchAndDisplayGui.py:131-132 | `list()` of a fresh iterator is the whole list (empty for `None`), and its length is `len` of the list |

## Left out

- Lending: the generic `except Exception` paths of `borrow_book`/`return_book` are not modelled. The record operations modelled here do not raise. In the source, a failing `save_books()` or waiting-list call comes after the book was already changed in place, and the answer is then False with the change kept. So `Borrow`'s clause `!r.0 ==> r.1 == c` and `SavesCountSuccesses` describe only runs without such faults.
- Lending: the `print` diagnostics are left out. The availability notification is modelled as a `Notice` appended to the catalog's notice list.
- Lending: `save_books()` and the catalog's CSV persistence are modelled only as a save counter. The content written is whatever the state is at that moment.
- Lending: the `Book` class is not part of this model. It is assumed to define neither `__bool__` nor `__len__`, so a found book is truthy for `if not book`.
- Lending: book fields other than title, counters, `is_loaned` and the waiting list (author, genre, year, ...) are not read by lending and are left out.
- Lending: `BookManager` loading and `WaitingListManager` are not part of this model. The waiting list is modelled as the FIFO queue its callers rely on: `add` appends, `remove` pops the head or gives `None`.
- ActionLog: file I/O and its failures are left out. The log file is the `lines` sequence.
- ActionLog: a wrapped call's keyword arguments are left out. Positional arguments appear as their `str()` text.
- ActionLog: each decorated method has its own `Logger()` instance. All of them write the same default file, which is modelled as one log.
- ActionLog.TitleFrom: `str.title` is modelled on ASCII letters only. Unicode case mapping has no counterpart in Dafny.
- Auth: `load_users` error handling is collapsed. A missing, unreadable or empty file reads as no rows.
- Auth: `save_users` failures, which the source swallows and prints, are left out.
- Auth: pandas column typing is left out. Usernames and hashes are strings.
- Auth: SHA-256 is a function supplied to the constructor. No property here depends on which function it is.
- Iteration: `__iter__` returning `self` is left out.
- Iteration: slice arguments to `__getitem__` are left out.
- Iteration: changes other code makes to the shared book list while it is being iterated are left out.
- The GUI screens themselves are left out, apart from the two loops that consume an iterator.
