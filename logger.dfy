/**
 * The action-logging wrapper `Logger.log_action`. Around a call of a named
 * operation it writes exactly one line to the log file and then hands back
 * the operation's result, or re-raises the exception the operation raised.
 *
 * The wrapped operation itself is outside this model: its outcome is given
 * as a parameter. Python values appear only through their truthiness.
 */
module ActionLog {
  import opened Wrappers

  /** A Python value, as far as `bool(result)` is concerned. */
  datatype Value =
    | NoneValue
    | BoolValue(b: bool)
    | IntValue(i: int)
    | StrValue(s: string)
    | SizedValue(size: nat)   // an object with `__len__`: a list, a book iterator
    | ObjectValue             // any other object: always true

  /** Python's truth test. */
  predicate Truthy(v: Value)
  {
    match v
    case NoneValue => false
    case BoolValue(b) => b
    case IntValue(i) => i != 0
    case StrValue(s) => s != ""
    case SizedValue(n) => n > 0
    case ObjectValue => true
  }

  /** How the wrapped call ended: with a result, or by raising an exception with message `str(e)`. */
  datatype Outcome = Returned(value: Value) | Raised(message: string)

  const SearchName := "perform_search"
  const SearchPhrase := "Search book"
  /** What `args[2]` raises when a search is called with fewer than three positional arguments. */
  const MissingArgument := "tuple index out of range"

  /** The fixed phrases of the message table. */
  function Phrase(name: string): Option<string>
  {
    if name == "add_book" then Some("book added")
    else if name == "remove_book" then Some("book removed")
    else if name == SearchName then Some(SearchPhrase)
    else if name == "borrow_book" then Some("book borrowed")
    else if name == "return_book" then Some("book returned")
    else if name == "log_out" then Some("log out")
    else if name == "log_in" then Some("logged in")
    else if name == "register" then Some("registered")
    else if name == "display_popular_books" then Some("Popular books display")
    else None
  }

  predicate IsUpper(c: char) { 'A' <= c <= 'Z' }
  predicate IsLower(c: char) { 'a' <= c <= 'z' }
  /** A cased character in the sense of `str.title` (ASCII letters only here). */
  predicate Cased(c: char) { IsUpper(c) || IsLower(c) }

  function ToUpper(c: char): char
  {
    if IsLower(c) then (c as int - 32) as char else c
  }

  function ToLower(c: char): char
  {
    if IsUpper(c) then (c as int + 32) as char else c
  }

  /** Position `k` of `s` begins a word: no cased character just before it. */
  predicate BeginsWord(s: string, k: nat, prevCased: bool)
    requires k < |s|
  {
    if k == 0 then !prevCased else !Cased(s[k - 1])
  }

  /**
   * `str.title` on the rest of a string, given whether the character before
   * it was cased: a letter that begins a word is upper-cased, every other
   * letter lower-cased, and everything else is kept.
   */
  function TitleFrom(s: string, prevCased: bool): (r: string)
    ensures |r| == |s|
    ensures forall k :: 0 <= k < |s| && !Cased(s[k]) ==> r[k] == s[k]
    ensures forall k :: 0 <= k < |s| && Cased(s[k]) ==>
      Cased(r[k]) && ToLower(r[k]) == ToLower(s[k]) && (IsUpper(r[k]) <==> BeginsWord(s, k, prevCased))
    decreases |s|
  {
    if s == [] then []
    else
      var c := if !Cased(s[0]) then s[0] else if prevCased then ToLower(s[0]) else ToUpper(s[0]);
      [c] + TitleFrom(s[1..], Cased(s[0]))
  }

  function Title(s: string): string
  {
    TitleFrom(s, false)
  }

  /** `s.replace('_', ' ')`. */
  function SpaceOut(s: string): (r: string)
    ensures |r| == |s|
    ensures forall k :: 0 <= k < |s| ==> r[k] != '_'
    ensures forall k :: 0 <= k < |s| ==> r[k] == if s[k] == '_' then ' ' else s[k]
    decreases |s|
  {
    if s == [] then []
    else [if s[0] == '_' then ' ' else s[0]] + SpaceOut(s[1..])
  }

  /**
   * The phrase for a name missing from the table, and for every exception:
   * the name with underscores turned into spaces, title-cased. It has the
   * name's length and no underscore, each letter is the name's letter up to
   * case, and exactly the letters that start a word are capitals.
   */
  function DefaultPhrase(name: string): (r: string)
    ensures |r| == |name|
    ensures forall k :: 0 <= k < |name| ==> r[k] != '_'
    ensures forall k :: 0 <= k < |name| && Cased(name[k]) ==>
      ToLower(r[k]) == ToLower(name[k]) && (IsUpper(r[k]) <==> BeginsWord(name, k, false))
  {
    SpaceOutKeepsWords(name);
    Title(SpaceOut(name))
  }

  /** Replacing underscores by spaces changes no letter and no word boundary. */
  lemma SpaceOutKeepsWords(name: string)
    ensures forall k :: 0 <= k < |name| && Cased(name[k]) ==> SpaceOut(name)[k] == name[k]
    ensures forall k :: 0 <= k < |name| ==> BeginsWord(SpaceOut(name), k, false) == BeginsWord(name, k, false)
  {
    var spaced := SpaceOut(name);
    forall k | 0 <= k < |name|
      ensures BeginsWord(spaced, k, false) == BeginsWord(name, k, false)
    {
      if k > 0 {
        assert Cased(spaced[k - 1]) == Cased(name[k - 1]);
      }
    }
  }

  /** The action text: the table's phrase if there is one, else the default phrase. */
  function Action(name: string): string
  {
    match Phrase(name)
    case Some(p) => p
    case None => DefaultPhrase(name)
  }

  function Status(v: Value): string
  {
    if Truthy(v) then "successfully" else "fail"
  }

  /** The search field as logged: `title` is shown as `name`. */
  function FieldShown(field: string): string
  {
    if field == "title" then "name" else field
  }

  function FailureLine(name: string, message: string): string
  {
    DefaultPhrase(name) + " failed: " + message + "\n"
  }

  predicate EndsWith(s: string, suffix: string)
  {
    |suffix| <= |s| && s[|s| - |suffix|..] == suffix
  }

  /**
   * One wrapped call: the line written to the log and the outcome handed to
   * the caller. `args` are the positional arguments (`self` first), each as
   * its `str()` text; a search reads the query at position 1 and the field at
   * position 2.
   */
  function Wrap(name: string, args: seq<string>, outcome: Outcome): (r: (string, Outcome))
    // the line of a call that returned: its action and status, and for a search the query and field
    ensures outcome.Returned? && |args| >= 3 && name == SearchName ==>
      r.0 == Action(name) + " \"" + args[1] + "\" by " + FieldShown(args[2]) + " completed " + Status(outcome.value) + "\n"
    ensures outcome.Returned? && name != SearchName ==>
      r.0 == Action(name) + " " + Status(outcome.value) + "\n"
    // an exception is logged under the default phrase, never the table's, and re-raised unchanged
    ensures outcome.Raised? ==> r == (FailureLine(name, outcome.message), outcome)
    // a search without its query and field fails inside the wrapper and raises instead of returning
    ensures outcome.Returned? && name == SearchName && |args| < 3 ==>
      r == (FailureLine(name, MissingArgument), Raised(MissingArgument))
    // otherwise the result passes through untouched ...
    ensures outcome.Returned? && (name != SearchName || |args| >= 3) ==> r.1 == outcome
    // ... and the line shows the result's truthiness in its last word
    ensures outcome.Returned? && (name != SearchName || |args| >= 3) ==>
      && (EndsWith(r.0, " successfully\n") <==> Truthy(outcome.value))
      && (EndsWith(r.0, " fail\n") <==> !Truthy(outcome.value))
  {
    match outcome
    case Raised(m) => (FailureLine(name, m), outcome)
    case Returned(v) =>
      if name == SearchName && |args| < 3 then
        (FailureLine(name, MissingArgument), Raised(MissingArgument))
      else
        ResultLineShape(name, args, v);
        (ResultLine(name, args, v), outcome)
  }

  lemma ResultLineShape(name: string, args: seq<string>, v: Value)
    requires name != SearchName || |args| >= 3
    ensures name != SearchName ==> ResultLine(name, args, v) == Action(name) + " " + Status(v) + "\n"
    ensures name == SearchName ==>
      ResultLine(name, args, v) == Action(name) + " \"" + args[1] + "\" by " + FieldShown(args[2]) + " completed " + Status(v) + "\n"
  {
  }

  /** The text in front of the status: the action and, for a search, its query and field. */
  function Lead(name: string, args: seq<string>): (r: string)
    requires name != SearchName || |args| >= 3
    ensures |r| > 0 && r[|r| - 1] == ' '
  {
    if name == SearchName then Action(name) + " \"" + args[1] + "\" by " + FieldShown(args[2]) + " completed "
    else Action(name) + " "
  }

  /** The line for a call that returned `v`: its last word is the status, and that tells truthy from falsy. */
  function ResultLine(name: string, args: seq<string>, v: Value): (r: string)
    requires name != SearchName || |args| >= 3
    ensures EndsWith(r, " successfully\n") <==> Truthy(v)
    ensures EndsWith(r, " fail\n") <==> !Truthy(v)
  {
    StatusIsLastWord(Lead(name, args), Status(v));
    Lead(name, args) + Status(v) + "\n"
  }

  /** The last word of `<prefix> <status>\n` tells the two statuses apart. */
  lemma StatusIsLastWord(prefix: string, status: string)
    requires status == "successfully" || status == "fail"
    requires |prefix| > 0 && prefix[|prefix| - 1] == ' '
    ensures EndsWith(prefix + status + "\n", " successfully\n") <==> status == "successfully"
    ensures EndsWith(prefix + status + "\n", " fail\n") <==> status == "fail"
  {
    var line := prefix + status + "\n";
    var n := |line|;
    if status == "fail" {
      assert line[n - 6..] == " fail\n";
      if n >= 14 {
        assert line[n - 14..][12] == 'l';
      }
    } else {
      assert line[n - 14..] == " successfully\n";
      assert line[n - 6..][4] == 'y';
    }
  }

  /**
   * The log file, as the sequence of lines it holds. The wrapper only ever
   * appends to it.
   */
  class Logger {
    const logFile: string
    var lines: seq<string>

    constructor (logFile: string, existing: seq<string>)
      ensures this.logFile == logFile && lines == existing
    {
      this.logFile := logFile;
      lines := existing;
    }

    /**
     * `log_action(func)(*args)`, with the call of `func` already made and
     * ending in `outcome`: one line is appended, earlier lines stay, and the
     * result or exception is passed on.
     */
    method LogAction(name: string, args: seq<string>, outcome: Outcome) returns (passed: Outcome)
      modifies this`lines
      ensures lines == old(lines) + [Wrap(name, args, outcome).0]
      ensures |lines| == |old(lines)| + 1 && lines[..|old(lines)|] == old(lines)
      ensures passed == Wrap(name, args, outcome).1
    {
      var line: string;
      if outcome.Raised? {
        line := FailureLine(name, outcome.message);
        passed := outcome;
      } else if name == SearchName && |args| < 3 {
        line := FailureLine(name, MissingArgument);
        passed := Raised(MissingArgument);
      } else {
        var action := Action(name);
        var status := Status(outcome.value);
        if name == SearchName {
          var query, field := args[1], args[2];
          line := action + " \"" + query + "\" by " + FieldShown(field) + " completed " + status + "\n";
        } else {
          line := action + " " + status + "\n";
        }
        passed := outcome;
      }
      lines := lines + [line];
    }
  }

  /** Any call other than a search that returns a non-empty string is logged as successful. */
  lemma NonEmptyStringLogsSuccess(name: string, args: seq<string>, msg: string)
    requires name != SearchName && msg != ""
    ensures Wrap(name, args, Returned(StrValue(msg))).0 == Action(name) + " successfully\n"
  {
    var line := Wrap(name, args, Returned(StrValue(msg))).0;
    assert Status(StrValue(msg)) == "successfully";
    assert line == Action(name) + " " + "successfully" + "\n";
    assert Action(name) + " " + "successfully" + "\n" == Action(name) + " successfully\n";
  }

  /** The fixed phrases the lending and registration calls are logged under. */
  lemma TablePhrases()
    ensures Action("borrow_book") == "book borrowed"
    ensures Action("return_book") == "book returned"
    ensures Action("register") == "registered"
    ensures Action(SearchName) == SearchPhrase
  {
  }

  /** `login` is not in the table (the table says `log_in`): it is logged as `Login`. */
  lemma LoginUsesDefaultPhrase()
    ensures Phrase("login").None?
    ensures Action("login") == "Login"
  {
    LoginTitleCased();
  }

  lemma LoginTitleCased()
    ensures DefaultPhrase("login") == "Login"
  {
    assert SpaceOut("login") == "login";
    LowerTailStaysLower("ogin");
    assert ToUpper('l') == 'L';
    assert TitleFrom("login", false) == ['L'] + TitleFrom("ogin", true);
  }

  /** Inside a word, lower-case letters are left as they are. */
  lemma {:induction false} LowerTailStaysLower(s: string)
    requires forall k :: 0 <= k < |s| ==> IsLower(s[k])
    ensures TitleFrom(s, true) == s
    decreases |s|
  {
    if s != [] {
      LowerTailStaysLower(s[1..]);
    }
  }
}
