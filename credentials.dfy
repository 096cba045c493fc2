/**
 * The flat-file credential store: `login_details.txt` holds one
 * `username:password` pair per line; it is read again on every
 * authentication attempt and the submitted pair is compared verbatim.
 */
module Credentials {
  import opened Wrappers
  import PyStr

  /** What opening `login_details.txt` for reading, and iterating over it, yields. */
  datatype FileResult =
    | NotFound                  // open raises FileNotFoundError
    | Unreadable                // open raises another OSError (no permission, a directory, ...)
    | Lines(lines: seq<string>) // the lines iteration yields, each with its line terminator

  /** The exceptions that escape the loader, and so also reach its callers. */
  datatype LoadError =
    | NotEnoughValues  // ValueError: a stripped line has no ':' and splits into one piece
    | TooManyValues    // ValueError: a stripped line has two or more ':'
    | OpenError        // an OSError other than FileNotFoundError

  /** Username to password. */
  type Details = map<string, string>

  /** One line: stripped, split on ':', and unpacked into exactly two names. */
  function ParseLine(line: string): Result<(string, string), LoadError>
  {
    var parts := PyStr.Split(PyStr.Strip(line), ':');
    if |parts| < 2 then Failure(NotEnoughValues)
    else if |parts| > 2 then Failure(TooManyValues)
    else Success((parts[0], parts[1]))
  }

  /**
   * A line parses iff its stripped text has exactly one ':'; with none it
   * raises "not enough values", with more "too many"; a parsed line is the
   * two names joined by its ':'.
   */
  lemma ParseLineOutcome(line: string)
    ensures var r, s := ParseLine(line), PyStr.Strip(line);
      && (r.Success? <==> PyStr.Count(s, ':') == 1)
      && (r.Failure? ==> (r.error == NotEnoughValues <==> ':' !in s))
      && (r.Failure? ==> r.error != OpenError)
      && (r.Success? ==> s == r.value.0 + ":" + r.value.1 && ':' !in r.value.0 && ':' !in r.value.1)
  {
    var s := PyStr.Strip(line);
    PyStr.SplitInTwo(s, ':');
    PyStr.CountZero(s, ':');
  }

  /** A line parses to `(u, p)` exactly when its stripped text is `u:p` with no other ':'. */
  lemma ParseLineExactly(line: string, u: string, p: string)
    ensures ParseLine(line) == Success((u, p)) <==>
              PyStr.Strip(line) == u + ":" + p && ':' !in u && ':' !in p
  {
    ParseLineOutcome(line);
    if PyStr.Strip(line) == u + ":" + p && ':' !in u && ':' !in p {
      assert PyStr.Join([u, p], ':') == u + ":" + p;
      PyStr.SplitJoin([u, p], ':');
    }
  }

  /** A well-formed line as a file holds it, with its newline, parses to its two names. */
  lemma ParseFileLine(u: string, p: string)
    requires ':' !in u && ':' !in p
    requires u == [] || !PyStr.IsSpace(u[0])
    requires p == [] || !PyStr.IsSpace(p[|p| - 1])
    ensures ParseLine(u + ":" + p + "\n") == Success((u, p))
  {
    var s := u + ":" + p;
    assert s[0] == if u == [] then ':' else u[0];
    assert s[|s| - 1] == if p == [] then ':' else p[|p| - 1];
    PyStr.StripTrailingSpace(s, "\n");
    ParseLineExactly(u + ":" + p + "\n", u, p);
  }

  /** A username and its password, as one line gives them. */
  type Entry = (string, string)

  /** Each line parsed on its own, in order. */
  function ParseEach(lines: seq<string>): (r: seq<Result<Entry, LoadError>>)
    ensures |r| == |lines|
    ensures forall i :: 0 <= i < |lines| ==> r[i] == ParseLine(lines[i])
  {
    seq(|lines|, i requires 0 <= i < |lines| => ParseLine(lines[i]))
  }

  /**
   * The parsed lines folded into a map in order, a later pair for a username
   * replacing an earlier one; the first line that did not parse raises, and
   * no map is returned.
   */
  function Collect(entries: seq<Result<Entry, LoadError>>): Result<Details, LoadError>
    decreases |entries|
  {
    if entries == [] then Success(map[])
    else match Collect(entries[..|entries| - 1])
      case Failure(e) => Failure(e)
      case Success(details) =>
        match entries[|entries| - 1]
        case Failure(e) => Failure(e)
        case Success((username, password)) => Success(details[username := password])
  }

  /** All the lines of the file, as the loader's loop reads them. */
  function ParseLines(lines: seq<string>): Result<Details, LoadError>
  {
    Collect(ParseEach(lines))
  }

  /** What the loader returns or raises for the file. */
  function Load(file: FileResult): Result<Details, LoadError>
  {
    match file
    case NotFound => Success(map[])
    case Unreadable => Failure(OpenError)
    case Lines(lines) => ParseLines(lines)
  }

  /**
   * Entry `i` is the last that binds `u`: it is a pair for `u`, and no later
   * entry is.
   */
  predicate LastFor(entries: seq<Result<Entry, LoadError>>, i: int, u: string)
  {
    && 0 <= i < |entries|
    && entries[i].Success? && entries[i].value.0 == u
    && forall j :: i < j < |entries| && entries[j].Success? ==> entries[j].value.0 != u
  }

  /** Collecting succeeds exactly when every entry parsed. */
  lemma {:induction false} CollectSucceeds(entries: seq<Result<Entry, LoadError>>)
    ensures Collect(entries).Success? <==> forall i :: 0 <= i < |entries| ==> entries[i].Success?
    decreases |entries|
  {
    if entries != [] {
      var init := entries[..|entries| - 1];
      CollectSucceeds(init);
      assert forall i :: 0 <= i < |init| ==> init[i] == entries[i];
    }
  }

  /** When collecting fails, it raises the error of the first entry that did not parse. */
  lemma {:induction false} CollectFirstError(entries: seq<Result<Entry, LoadError>>, k: int)
    requires 0 <= k < |entries| && entries[k].Failure?
    requires forall i :: 0 <= i < k ==> entries[i].Success?
    ensures Collect(entries) == Failure(entries[k].error)
    decreases |entries|
  {
    var init := entries[..|entries| - 1];
    assert forall i :: 0 <= i < |init| ==> init[i] == entries[i];
    if k == |entries| - 1 {
      CollectSucceeds(init);
    } else {
      CollectFirstError(init, k);
    }
  }

  /** The usernames bound by a successful collection are exactly those some entry names. */
  lemma {:induction false} CollectKeys(entries: seq<Result<Entry, LoadError>>, u: string)
    requires Collect(entries).Success?
    ensures u in Collect(entries).value <==>
              exists i :: 0 <= i < |entries| && entries[i].Success? && entries[i].value.0 == u
    decreases |entries|
  {
    if entries != [] {
      var init := entries[..|entries| - 1];
      CollectKeys(init, u);
      assert forall i :: 0 <= i < |init| ==> init[i] == entries[i];
      var last := |entries| - 1;
      if entries[last].value.0 != u && exists i :: 0 <= i < |entries| && entries[i].Success? && entries[i].value.0 == u {
        var i :| 0 <= i < |entries| && entries[i].Success? && entries[i].value.0 == u;
        assert init[i] == entries[i];
      }
    }
  }

  /** A successful collection binds each username to the password of the last entry that names it. */
  lemma {:induction false} CollectLastWins(entries: seq<Result<Entry, LoadError>>, i: int, u: string)
    requires Collect(entries).Success?
    requires LastFor(entries, i, u)
    ensures u in Collect(entries).value
    ensures Collect(entries).value[u] == entries[i].value.1
    decreases |entries|
  {
    var init := entries[..|entries| - 1];
    assert forall k :: 0 <= k < |init| ==> init[k] == entries[k];
    if i < |entries| - 1 {
      assert LastFor(init, i, u);
      CollectLastWins(init, i, u);
    }
  }

  /** Every username a successful collection binds has a last entry, and that entry holds its password. */
  lemma {:induction false} CollectLookup(entries: seq<Result<Entry, LoadError>>, u: string) returns (i: int)
    requires Collect(entries).Success? && u in Collect(entries).value
    ensures LastFor(entries, i, u)
    ensures Collect(entries).value[u] == entries[i].value.1
    decreases |entries|
  {
    var init := entries[..|entries| - 1];
    assert forall k :: 0 <= k < |init| ==> init[k] == entries[k];
    var last := |entries| - 1;
    if entries[last].value.0 == u {
      i := last;
    } else {
      i := CollectLookup(init, u);
      assert LastFor(init, i, u);
    }
  }

  /**
   * `load_login_details`: a loop over the lines filling a map. A missing file
   * gives the empty map (its `print` of a notice has no other effect); any
   * other failure propagates.
   */
  method LoadLoginDetails(file: FileResult) returns (r: Result<Details, LoadError>)
    ensures r == Load(file)
  {
    if file.NotFound? {
      return Success(map[]);
    }
    if file.Unreadable? {
      return Failure(OpenError);
    }
    var lines := file.lines;
    var details: Details := map[];
    var n := 0;
    while n < |lines|
      invariant 0 <= n <= |lines|
      invariant Collect(ParseEach(lines)[..n]) == Success(details)
    {
      assert ParseEach(lines)[..n + 1][..n] == ParseEach(lines)[..n];
      var parts := PyStr.Split(PyStr.Strip(lines[n]), ':');
      if |parts| != 2 {
        FailsAtLine(lines, n);
      }
      if |parts| < 2 {
        return Failure(NotEnoughValues);
      } else if |parts| > 2 {
        return Failure(TooManyValues);
      }
      var username, password := parts[0], parts[1];
      details := details[username := password];
      n := n + 1;
    }
    assert ParseEach(lines)[..n] == ParseEach(lines);
    return Success(details);
  }

  /** Given that the lines before `n` parse, a line `n` that does not parse is what loading raises. */
  lemma FailsAtLine(lines: seq<string>, n: int)
    requires 0 <= n < |lines| && ParseLine(lines[n]).Failure?
    requires Collect(ParseEach(lines)[..n]).Success?
    ensures ParseLines(lines) == Failure(ParseLine(lines[n]).error)
  {
    var entries := ParseEach(lines);
    CollectSucceeds(entries[..n]);
    assert forall i :: 0 <= i < n ==> entries[..n][i] == entries[i];
    CollectFirstError(entries, n);
  }

  /** Whether the submitted pair matches the store: the username is bound, to exactly this password. */
  function Authenticate(file: FileResult, username: string, password: string): (r: Result<bool, LoadError>)
    ensures file.NotFound? ==> r == Success(false)
    ensures file.Unreadable? ==> r == Failure(OpenError)
  {
    match Load(file)
    case Failure(e) => Failure(e)
    case Success(details) => Success(username in details && details[username] == password)
  }

  /**
   * Against a file of lines: authentication raises iff some line does not
   * parse, and otherwise accepts exactly the pair on the last line for the
   * username.
   */
  lemma AuthenticateLines(lines: seq<string>, u: string, p: string)
    ensures Authenticate(Lines(lines), u, p).Success? <==>
              forall i :: 0 <= i < |lines| ==> ParseLine(lines[i]).Success?
    ensures Authenticate(Lines(lines), u, p) == Success(true) <==>
              (&& ParseLines(lines).Success?
               && exists i :: LastFor(ParseEach(lines), i, u) && ParseLine(lines[i]).value.1 == p)
  {
    var entries := ParseEach(lines);
    CollectSucceeds(entries);
    if ParseLines(lines).Success? {
      if u in ParseLines(lines).value {
        var i := CollectLookup(entries, u);
      }
      if exists i :: LastFor(entries, i, u) && ParseLine(lines[i]).value.1 == p {
        var i :| LastFor(entries, i, u) && ParseLine(lines[i]).value.1 == p;
        CollectLastWins(entries, i, u);
      }
    }
  }

  /**
   * One line whose stripped text does not hold exactly one ':' (a blank line
   * among them) makes loading raise, and with it every authentication attempt.
   */
  lemma BadLineBreaksLoad(lines: seq<string>, k: int, u: string, p: string)
    requires 0 <= k < |lines| && PyStr.Count(PyStr.Strip(lines[k]), ':') != 1
    ensures ParseLines(lines).Failure?
    ensures Authenticate(Lines(lines), u, p).Failure?
  {
    ParseLineOutcome(lines[k]);
    CollectSucceeds(ParseEach(lines));
  }

  /** A blank line, or one of whitespace only, has no ':' and so raises "not enough values". */
  lemma BlankLineFails(line: string)
    requires forall k :: 0 <= k < |line| ==> PyStr.IsSpace(line[k])
    ensures ParseLine(line) == Failure(NotEnoughValues)
  {
    PyStr.LStripAllSpace(line);
    ParseLineOutcome(line);
  }

  /**
   * A pair that is in the file is still refused when a later line binds the
   * same username to another password.
   */
  lemma ShadowedPairRejected(lines: seq<string>, i: int, j: int, u: string, p: string)
    requires ParseLines(lines).Success?
    requires 0 <= i < j && LastFor(ParseEach(lines), j, u)
    requires ParseLine(lines[i]) == Success((u, p)) && ParseLine(lines[j]).value.1 != p
    ensures Authenticate(Lines(lines), u, p) == Success(false)
  {
    CollectLastWins(ParseEach(lines), j, u);
  }
}
