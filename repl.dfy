/** `main`'s read-eval loop: the input lines are a parameter, the printed
    results are collected instead of written to the terminal. */
module Repl {
  import opened Text
  import opened Outcomes
  import opened Contacts
  import opened Commands
  import Store

  /** Where the loop stands: reading the next line, left by the `break` after
      an ExitCommand, or ended by an exception nobody catches. */
  datatype Status = Waiting | Exited | Crashed(error: Error)

  /** The book, everything printed so far, and the loop's state. */
  datatype Session = Session(book: Book, printed: seq<string>, status: Status)

  /** One input line fed to the loop. A loop that has stopped reads nothing
      more; otherwise at most one message is printed. */
  function Feed(s: Session, line: string): (r: Session)
    requires s.book.Valid()
    ensures r.book.Valid()
    ensures !s.status.Waiting? ==> r == s
    ensures |s.printed| <= |r.printed| <= |s.printed| + 1 && r.printed[..|s.printed|] == s.printed
    ensures r.book != s.book ==> exists out :: Step(s.book, line) == Printed(out, r.book, false)
  {
    if !s.status.Waiting? then s
    else
      match Step(s.book, line)
      case Skipped => s
      case Invalid => s.(printed := s.printed + [InvalidCommand])
      case Failed(e) => s.(status := Crashed(e))
      case Printed(out, b, t) => Session(b, s.printed + [out], if t then Exited else Waiting)
  }

  /** The loop after reading `lines`, from the book `b`. */
  function Run(b: Book, lines: seq<string>): (r: Session)
    requires b.Valid()
    ensures r.book.Valid()
    decreases |lines|
  {
    if lines == [] then Session(b, [], Waiting)
    else Feed(Run(b, lines[..|lines| - 1]), lines[|lines| - 1])
  }

  /** Once the loop has stopped, later lines change nothing. */
  lemma {:induction false} RunAfterStop(b: Book, lines: seq<string>, more: seq<string>)
    requires b.Valid() && !Run(b, lines).status.Waiting?
    ensures Run(b, lines + more) == Run(b, lines)
    decreases |more|
  {
    if more == [] {
      assert lines + more == lines;
    } else {
      var shorter := more[..|more| - 1];
      assert (lines + more)[..|lines + more| - 1] == lines + shorter;
      RunAfterStop(b, lines, shorter);
    }
  }

  /** What has been printed stays printed, in order. */
  lemma {:induction false} RunExtendsOutput(b: Book, lines: seq<string>, more: seq<string>)
    requires b.Valid()
    ensures |Run(b, lines).printed| <= |Run(b, lines + more).printed|
    ensures Run(b, lines + more).printed[..|Run(b, lines).printed|] == Run(b, lines).printed
    decreases |more|
  {
    if more == [] {
      assert lines + more == lines;
    } else {
      var shorter := more[..|more| - 1];
      assert (lines + more)[..|lines + more| - 1] == lines + shorter;
      RunExtendsOutput(b, lines, shorter);
    }
  }

  /** No input ever reaches the `break`: the exit words fail to construct
      their command, so the loop ends only by an exception or with the
      input. */
  lemma {:induction false} NeverExits(b: Book, lines: seq<string>)
    requires b.Valid()
    ensures !Run(b, lines).status.Exited?
    decreases |lines|
  {
    if lines != [] {
      NeverExits(b, lines[..|lines| - 1]);
    }
  }

  /** Every book the loop reaches from a book with title-cased keys has
      title-cased keys. */
  lemma {:induction false} RunKeepsKeysTitled(b: Book, lines: seq<string>)
    requires b.Valid() && b.KeysTitled()
    ensures Run(b, lines).book.KeysTitled()
    decreases |lines|
  {
    if lines != [] {
      var s := Run(b, lines[..|lines| - 1]);
      RunKeepsKeysTitled(b, lines[..|lines| - 1]);
      var line := lines[|lines| - 1];
      if s.status.Waiting? && Step(s.book, line).Printed? {
        StepKeepsKeysTitled(s.book, line);
      }
    }
  }

  /** From the fresh start, every name the book lists can be looked up as it
      is listed, after any input. */
  lemma SessionNamesFound(lines: seq<string>, i: nat)
    requires i < |Run(Empty, lines).book.names|
    ensures var b := Run(Empty, lines).book; GetPhone(b, b.names[i]) == Ok(b.phones[b.names[i]])
  {
    EmptyValid();
    RunKeepsKeysTitled(Empty, lines);
    ListedNamesFound(Run(Empty, lines).book, i);
  }

  /** An empty line is skipped and leaves everything as it was. */
  lemma EmptyLineSkipped(b: Book, lines: seq<string>)
    requires b.Valid()
    ensures Run(b, lines + [""]) == Run(b, lines)
  {
    assert (lines + [""])[..|lines|] == lines;
  }

  /** A line whose first word is no command prints the invalid-command
      message and leaves the book and the loop as they were. */
  lemma InvalidLineKeepsBook(b: Book, lines: seq<string>, line: string)
    requires b.Valid() && Run(b, lines).status.Waiting?
    requires line != "" && Split(line) != [] && Lookup(Lower(Split(line)[0])).None?
    ensures Run(b, lines + [line]) == Run(b, lines).(printed := Run(b, lines).printed + [InvalidCommand])
  {
    assert (lines + [line])[..|lines|] == lines;
  }

  lemma {:induction false} KeepsBook(b: Book, lines: seq<string>)
    requires b.Valid()
    requires forall i :: 0 <= i < |lines| ==> lines[i] == "" || Split(lines[i]) == [] || Lookup(Lower(Split(lines[i])[0])) !in {Some(AddKind), Some(ChangeKind)}
    ensures Run(b, lines).book == b
    decreases |lines|
  {
    if lines != [] {
      var last := lines[|lines| - 1];
      var front := lines[..|lines| - 1];
      KeepsBook(b, front);
      var s := Run(b, front);
      if s.status.Waiting? && last != "" && Split(last) != [] {
        var key := Lower(Split(last)[0]);
        match Lookup(key)
        case None =>
        case Some(kind) =>
          match Construct(kind, Split(last)[1..])
          case Err(_) =>
          case Ok(cmd) =>
            assert cmd.Kind() == kind;
            assert !cmd.Add? && !cmd.Change?;
      }
    }
  }

  /** A session that types "exit" ends with the TypeError, not "Good bye". */
  lemma ExitSession(b: Book)
    requires b.Valid()
    ensures Run(b, ["exit"]) == Session(b, [], Crashed(TypeError))
  {
    ExitFails(b);
    assert ["exit"][..0] == [];
  }

  /** Adding "bob" and then asking for "BOB" prints both confirmations, the
      second with the name as it was typed. */
  lemma BobSession()
    ensures Empty.Valid()
    ensures Run(Empty, ["add bob 123", "get BOB"]).printed
         == [AddConfirmation("bob", "123"), PhoneReport("BOB", "123")]
  {
    EmptyValid();
    var saved := AddRecord(Empty, "bob", "123");
    BobAdded();
    var first := Feed(Session(Empty, [], Waiting), "add bob 123");
    assert first == Session(saved, [AddConfirmation("bob", "123")], Waiting);
    BobGot(saved);
    RunTwo(Empty, "add bob 123", "get BOB");
  }

  lemma RunTwo(b: Book, first: string, second: string)
    requires b.Valid()
    ensures Run(b, [first, second]) == Feed(Feed(Session(b, [], Waiting), first), second)
  {
    RunSnoc(b, [], first);
    RunSnoc(b, [first], second);
    assert [] + [first] == [first] && [first] + [second] == [first, second];
  }

  lemma RunSnoc(b: Book, lines: seq<string>, line: string)
    requires b.Valid()
    ensures Run(b, lines + [line]) == Feed(Run(b, lines), line)
  {
    assert (lines + [line])[..|lines|] == lines;
  }

  lemma BobAdded()
    ensures Empty.Valid()
    ensures Step(Empty, "add bob 123")
         == Printed(AddConfirmation("bob", "123"), AddRecord(Empty, "bob", "123"), false)
  {
    EmptyValid();
    assert Token("add") && Token("bob") && Token("123");
    LowerNoCapitals("add");
    assert "add" + " " + "bob" + " " + "123" == "add bob 123";
    StepAdd(Empty, "add", "bob", "123");
  }

  lemma BobGot(b: Book)
    requires b == AddRecord(Empty, "bob", "123")
    ensures b.Valid()
    ensures Step(b, "get BOB") == Printed(PhoneReport("BOB", "123"), b, false)
  {
    EmptyValid();
    BobThenBOB();
    assert Token("get") && Token("BOB");
    LowerNoCapitals("get");
    assert "get" + " " + "BOB" == "get BOB";
    StepGet(b, "get", "BOB");
  }

  // ---------------------------------------------------------------------------
  // The loop over the mutable book

  /** `command.execute()` on the command bound to `book`. */
  method ExecuteOn(book: Store.AddressBook, cmd: Command) returns (r: Result<string>)
    requires book.Valid()
    modifies book`names, book`phones
    ensures book.Valid()
    ensures match Execute(cmd, old(book.Model()))
            case Ok(reply) => r == Ok(reply.output) && book.Model() == reply.book
            case Err(e) => r == Err(e) && book.Model() == old(book.Model())
  {
    match cmd
    case Add(name, phone) =>
      book.AddRecord(name, phone);
      r := Ok(AddConfirmation(name, phone));
    case Change(name, phone) =>
      var done := book.ChangePhone(name, phone);
      r := if done.Ok? then Ok(ChangeConfirmation(name, phone)) else Err(done.error);
    case Get(name) =>
      var found := book.GetPhone(name);
      r := if found.Ok? then Ok(PhoneReport(name, found.value)) else Err(found.error);
    case Show =>
      var listing := book.ShowAllContacts();
      r := Ok(listing);
    case Enter =>
      r := Ok(Greeting);
    case Exit =>
      r := Ok(Farewell);
  }

  /** One pass of the loop body on `line`, updating `book` in place: what
      has been printed after it and where the loop then stands. */
  method Dispatch(book: Store.AddressBook, printed: seq<string>, line: string)
    returns (after: seq<string>, status: Status)
    requires book.Valid()
    modifies book`names, book`phones
    ensures book.Valid()
    ensures Session(book.Model(), after, status) == Feed(Session(old(book.Model()), printed, Waiting), line)
  {
    after, status := printed, Waiting;
    if line == "" {
      return;
    }
    var elements := Split(line);
    if elements == [] {
      status := Crashed(IndexError);
      return;
    }
    var key := Lower(elements[0]);
    match Lookup(key)
    case None =>
      after := printed + [InvalidCommand];
    case Some(kind) =>
      var made := Construct(kind, elements[1..]);
      if made.Err? {
        status := Crashed(made.error);
      } else {
        var cmd := made.value;
        var r := ExecuteOn(book, cmd);
        if r.Ok? {
          after := printed + [r.value];
          if cmd.Exit? {
            status := Exited;
          }
        } else {
          status := Crashed(r.error);
        }
      }
  }

  /** `main`'s `while True` loop over the given lines: it prints what each
      command returns, stops after an ExitCommand or at the first uncaught
      exception, and otherwise reads on until the lines run out. */
  method Serve(book: Store.AddressBook, lines: seq<string>) returns (printed: seq<string>, status: Status)
    requires book.Valid()
    modifies book`names, book`phones
    ensures book.Valid()
    ensures Session(book.Model(), printed, status) == Run(old(book.Model()), lines)
  {
    ghost var start := book.Model();
    printed, status := [], Waiting;
    var i := 0;
    while i < |lines| && status.Waiting?
      invariant 0 <= i <= |lines|
      invariant book.Valid()
      invariant Session(book.Model(), printed, status) == Run(start, lines[..i])
    {
      printed, status := Dispatch(book, printed, lines[i]);
      RunNext(start, lines, i);
      i := i + 1;
    }
    RunUntil(start, lines, i);
  }

  lemma Extend(lines: seq<string>, i: nat)
    requires i < |lines|
    ensures lines[..i + 1] == lines[..i] + [lines[i]]
  {
  }

  lemma Rejoin(lines: seq<string>, i: nat)
    requires i <= |lines|
    ensures lines[..i] + lines[i..] == lines
  {
  }

  /** The loop after one more of `lines`. */
  lemma RunNext(b: Book, lines: seq<string>, i: nat)
    requires b.Valid() && i < |lines|
    ensures Run(b, lines[..i + 1]) == Feed(Run(b, lines[..i]), lines[i])
  {
    RunSnoc(b, lines[..i], lines[i]);
    Extend(lines, i);
  }

  /** A loop that has read all of `lines`, or stopped after the first `i`,
      is where it is after all of them. */
  lemma RunUntil(b: Book, lines: seq<string>, i: nat)
    requires b.Valid() && i <= |lines|
    requires i < |lines| ==> !Run(b, lines[..i]).status.Waiting?
    ensures Run(b, lines) == Run(b, lines[..i])
  {
    var front, rest := lines[..i], lines[i..];
    Rejoin(lines, i);
    if i < |lines| {
      RunAfterStop(b, front, rest);
    } else {
      assert front == lines;
    }
  }
}
