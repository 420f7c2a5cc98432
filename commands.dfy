/** The command objects and the dispatcher of bot.py: the static table from
    command word to command class, the construction of a command from the
    remaining tokens, its `execute`, and one pass of the read-eval loop. */
module Commands {
  import opened Text
  import opened Outcomes
  import opened Contacts

  /** The command classes that the dispatch table names. */
  datatype Kind = AddKind | ExitKind | EnterKind | ChangeKind | ShowKind | GetKind

  /** A constructed command object with its constructor's arguments; the
      address book it is bound to is the `b` that `Execute` receives. */
  datatype Command =
    | Add(name: string, phone: string)
    | Change(name: string, phone: string)
    | Get(name: string)
    | Show
    | Enter
    | Exit
  {
    function Kind(): Kind {
      match this
      case Add(_, _) => AddKind
      case Change(_, _) => ChangeKind
      case Get(_) => GetKind
      case Show => ShowKind
      case Enter => EnterKind
      case Exit => ExitKind
    }

    /** The arguments the command was constructed with after the book. */
    function Args(): seq<string> {
      match this
      case Add(n, p) => [n, p]
      case Change(n, p) => [n, p]
      case Get(n) => [n]
      case _ => []
    }
  }

  /** A dictionary from command word to class, as its entries in insertion
      order. */
  datatype Entries = NoEntry | Entry(key: string, kind: Kind, next: Entries)

  /** The dispatch table of `main`, in its order; four of its keys contain
      a space. */
  const Table: Entries :=
    Entry("add", AddKind,
    Entry("good bye", ExitKind,
    Entry("close", ExitKind,
    Entry("exit", ExitKind,
    Entry("hello", EnterKind,
    Entry("change", ChangeKind,
    Entry("show", ShowKind,
    Entry("show all", ShowKind,
    Entry("show all contacts", ShowKind,
    Entry("get", GetKind,
    Entry("get phone", GetKind,
    NoEntry)))))))))))

  /** The class registered under `key` in `table`, if any. */
  function Find(table: Entries, key: string): Option<Kind> {
    match table
    case NoEntry => None
    case Entry(k, kind, next) => if k == key then Some(kind) else Find(next, key)
  }

  /** The keys of `table`. */
  function Keys(table: Entries): set<string> {
    match table
    case NoEntry => {}
    case Entry(k, _, next) => {k} + Keys(next)
  }

  /** A key is found exactly when it is one of the table's keys. */
  lemma {:induction false} FindIn(table: Entries, key: string)
    ensures Find(table, key).Some? <==> key in Keys(table)
  {
    match table
    case NoEntry =>
    case Entry(k, _, next) => FindIn(next, key);
  }

  /** `commands[key]`, or None where `key in commands` is false: a class is
      found exactly for the eleven keys of the dictionary. */
  function Lookup(key: string): (r: Option<Kind>)
    ensures r.Some? <==> key in {"add", "good bye", "close", "exit", "hello", "change",
                                 "show", "show all", "show all contacts", "get", "get phone"}
  {
    FindIn(Table, key);
    Find(Table, key)
  }

  const InvalidCommand: string := "Invalid command. Please try again."
  const Farewell: string := "Good bye"
  const Greeting: string := "How can I help you?"

  /** What a class's constructor accepts after the address book. ExitCommand
      and EnterCommand define no `__init__`; the one they inherit accepts no
      argument at all, so it refuses even the address book. */
  datatype Arity = Takes(count: nat) | NoConstructor

  function Parameters(k: Kind): Arity {
    match k
    case AddKind => Takes(2)
    case ChangeKind => Takes(2)
    case GetKind => Takes(1)
    case ShowKind => Takes(0)
    case EnterKind => NoConstructor
    case ExitKind => NoConstructor
  }

  /** `command_cls(address_book, *args)`: a command of class `kind` holding
      `args` in order, or TypeError when the count does not fit. */
  function Construct(kind: Kind, args: seq<string>): (r: Result<Command>)
    ensures r.Ok? <==> Parameters(kind) == Takes(|args|)
    ensures r.Ok? ==> r.value.Kind() == kind && r.value.Args() == args
    ensures r.Err? ==> r.error == TypeError
  {
    match kind
    case AddKind => if |args| == 2 then Ok(Add(args[0], args[1])) else Err(TypeError)
    case ChangeKind => if |args| == 2 then Ok(Change(args[0], args[1])) else Err(TypeError)
    case GetKind => if |args| == 1 then Ok(Get(args[0])) else Err(TypeError)
    case ShowKind => if |args| == 0 then Ok(Show) else Err(TypeError)
    case EnterKind => Err(TypeError)
    case ExitKind => Err(TypeError)
  }

  /** What `execute` returns, and the book as it leaves it. */
  datatype Reply = Reply(output: string, book: Book)

  function AddConfirmation(name: string, phone: string): string {
    "Contact " + name + " with phone " + phone + " saved"
  }

  function ChangeConfirmation(name: string, phone: string): string {
    "Phone number for contact " + name + " has been updated to " + phone + "."
  }

  function PhoneReport(name: string, phone: string): string {
    "The phone number for contact " + name + " is " + phone
  }

  /** `execute` of each command class. Only Change and Get can fail, and only
      on a name the book does not hold; only Add and Change touch the book. */
  function Execute(cmd: Command, b: Book): (r: Result<Reply>)
    requires b.Valid()
    ensures r.Err? <==> (cmd.Change? || cmd.Get?) && Title(cmd.name) !in b.phones
    ensures r.Err? ==> r.error == KeyError(NotFoundMessage)
    ensures r.Ok? ==> r.value.book.Valid()
    ensures r.Ok? && !cmd.Add? && !cmd.Change? ==> r.value.book == b
    ensures r.Ok? && (cmd.Add? || cmd.Change?) ==>
      |r.value.book.names| >= |b.names| && r.value.book.names[..|b.names|] == b.names
      && r.value.book.phones.Keys == b.phones.Keys + {Title(cmd.name)}
      && r.value.book.phones[Title(cmd.name)] == cmd.phone
      && (forall k :: k in b.phones && k != Title(cmd.name) ==> r.value.book.phones[k] == b.phones[k])
    ensures r.Ok? && cmd.Add? ==> r.value.output == AddConfirmation(cmd.name, cmd.phone)
    ensures r.Ok? && cmd.Change? ==> r.value.output == ChangeConfirmation(cmd.name, cmd.phone)
    ensures r.Ok? && cmd.Get? ==> r.value.output == PhoneReport(cmd.name, b.phones[Title(cmd.name)])
    ensures r.Ok? && cmd.Show? ==> r.value.output == Listing(b)
    ensures r.Ok? && cmd.Enter? ==> r.value.output == Greeting
    ensures r.Ok? && cmd.Exit? ==> r.value.output == Farewell
  {
    match cmd
    case Add(name, phone) =>
      Ok(Reply(AddConfirmation(name, phone), AddRecord(b, name, phone)))
    case Change(name, phone) =>
      (match ChangePhone(b, name, phone)
       case Ok(b') => Ok(Reply(ChangeConfirmation(name, phone), b'))
       case Err(e) => Err(e))
    case Get(name) =>
      (match GetPhone(b, name)
       case Ok(phone) => Ok(Reply(PhoneReport(name, phone), b))
       case Err(e) => Err(e))
    case Show => Ok(Reply(Listing(b), b))
    case Enter => Ok(Reply(Greeting, b))
    case Exit => Ok(Reply(Farewell, b))
  }

  /** Executing a command keeps every key of the book title-cased. */
  lemma ExecuteKeepsKeysTitled(cmd: Command, b: Book)
    requires b.Valid() && b.KeysTitled() && Execute(cmd, b).Ok?
    ensures Execute(cmd, b).value.book.KeysTitled()
  {
    match cmd
    case Add(name, phone) => AddKeepsKeysTitled(b, name, phone);
    case Change(name, phone) => ChangeKeepsKeysTitled(b, name, phone);
    case _ =>
  }

  /** The outcome of one input line: ignored, answered with the invalid
      command message, stopped by an uncaught exception, or a command's
      printed result with the book after it and whether the loop ends. */
  datatype StepResult =
    | Skipped
    | Invalid
    | Failed(error: Error)
    | Printed(output: string, book: Book, terminated: bool)

  /** Execute a constructed command; the loop ends after an ExitCommand. */
  function Perform(cmd: Command, b: Book): (r: StepResult)
    requires b.Valid()
    ensures r.Printed? || r.Failed?
    ensures r.Printed? ==> r.book.Valid() && (r.terminated <==> cmd.Exit?)
  {
    match Execute(cmd, b)
    case Ok(reply) => Printed(reply.output, reply.book, cmd.Exit?)
    case Err(e) => Failed(e)
  }

  /** The loop body once the line has been split: `elements[0]` (an
      IndexError when there is none) lower-cased and looked up, the command
      built from the other tokens, and executed. */
  function Respond(b: Book, elements: seq<string>): (r: StepResult)
    requires b.Valid()
    ensures !r.Skipped?
    ensures r == Failed(IndexError) <==> elements == []
    ensures r.Invalid? <==> elements != [] && Lookup(Lower(elements[0])).None?
    ensures r.Printed? ==> r.book.Valid() && !r.terminated
  {
    if elements == [] then Failed(IndexError)
    else
      match Lookup(Lower(elements[0]))
      case None => Invalid
      case Some(kind) =>
        match Construct(kind, elements[1..])
        case Err(e) => Failed(e)
        case Ok(cmd) => Perform(cmd, b)
  }

  /** One pass of `main`'s loop over an input line: an empty line is skipped,
      any other is split and answered. */
  function Step(b: Book, line: string): (r: StepResult)
    requires b.Valid()
    ensures r.Skipped? <==> line == ""
    ensures r == Failed(IndexError) <==> line != "" && AllSpace(line)
    ensures r.Invalid? <==> line != "" && Split(line) != [] && Lookup(Lower(Split(line)[0])).None?
    ensures r.Printed? ==> r.book.Valid() && !r.terminated
  {
    SplitEmptyIff(line);
    if line == "" then Skipped else Respond(b, Split(line))
  }

  /** Answering a line keeps every key of the book title-cased. */
  lemma StepKeepsKeysTitled(b: Book, line: string)
    requires b.Valid() && b.KeysTitled() && Step(b, line).Printed?
    ensures Step(b, line).book.KeysTitled()
  {
    var elements := Split(line);
    var kind := Lookup(Lower(elements[0])).value;
    var cmd := Construct(kind, elements[1..]).value;
    ExecuteKeepsKeysTitled(cmd, b);
  }

  // ---------------------------------------------------------------------------
  // Dispatch

  lemma SpacedIsNotToken(s: string, i: nat)
    requires i < |s| && IsSpace(s[i])
    ensures !Token(s)
  {
  }

  /** The command word is one lower-cased token, so the table keys that hold
      a space can never be looked up. */
  lemma MultiWordKeysUnreachable(line: string)
    requires Split(line) != []
    ensures Lower(Split(line)[0]) != "good bye" && Lower(Split(line)[0]) != "show all"
    ensures Lower(Split(line)[0]) != "show all contacts" && Lower(Split(line)[0]) != "get phone"
  {
    LowerToken(Split(line)[0]);
    SpacedIsNotToken("good bye", 4);
    SpacedIsNotToken("show all", 4);
    SpacedIsNotToken("show all contacts", 4);
    SpacedIsNotToken("get phone", 3);
  }

  lemma AddWord() ensures Lookup("add") == Some(AddKind) {}
  lemma ChangeWord() ensures Lookup("change") == Some(ChangeKind) {}
  lemma GetWord() ensures Lookup("get") == Some(GetKind) {}
  lemma ShowWord() ensures Lookup("show") == Some(ShowKind) {}
  lemma ExitWord() ensures Lookup("exit") == Some(ExitKind) {}
  lemma CloseWord() ensures Lookup("close") == Some(ExitKind) {}
  lemma HelloWord() ensures Lookup("hello") == Some(EnterKind) {}
  lemma GoodWord() ensures Lookup("good") == None {}

  /** A non-empty line is answered from its tokens. */
  lemma StepIsRespond(b: Book, line: string)
    requires b.Valid() && line != ""
    ensures Step(b, line) == Respond(b, Split(line))
  {
  }

  /** A line of two tokens is answered from those two tokens. */
  lemma StepTwo(b: Book, x: string, y: string)
    requires b.Valid() && Token(x) && Token(y)
    ensures Step(b, x + " " + y) == Respond(b, [x, y])
  {
    SplitTwo(x + " " + y, x, y);
    StepIsRespond(b, x + " " + y);
  }

  lemma SplitTwo(line: string, a: string, b: string)
    requires Token(a) && Token(b) && line == a + " " + b
    ensures Split(line) == [a, b]
  {
    assert Join([a, b]) == line;
    SplitJoin([a, b]);
  }

  lemma SplitThree(line: string, a: string, b: string, c: string)
    requires Token(a) && Token(b) && Token(c) && line == a + " " + b + " " + c
    ensures Split(line) == [a, b, c]
  {
    JoinThree(a, b, c);
    SplitJoin([a, b, c]);
  }

  /** Once the command word is known to name `kind`, the line is answered by
      building that command from the remaining tokens. */
  lemma RespondTo(b: Book, ts: seq<string>, kind: Kind)
    requires b.Valid() && |ts| > 0 && Lookup(Lower(ts[0])) == Some(kind)
    ensures Construct(kind, ts[1..]).Err? ==> Respond(b, ts) == Failed(Construct(kind, ts[1..]).error)
    ensures Construct(kind, ts[1..]).Ok? ==> Respond(b, ts) == Perform(Construct(kind, ts[1..]).value, b)
  {
  }

  /** A known command word followed by the wrong number of arguments, and
      every use of "hello", "exit" and "close", ends in TypeError. */
  lemma ArityMismatch(b: Book, ts: seq<string>, kind: Kind)
    requires b.Valid() && |ts| > 0 && Lookup(Lower(ts[0])) == Some(kind)
    requires Parameters(kind) != Takes(|ts| - 1)
    ensures Respond(b, ts) == Failed(TypeError)
  {
    RespondTo(b, ts, kind);
  }

  /** A line of tokens separated by single spaces is answered with exactly
      those tokens, in order. */
  lemma JoinedStep(b: Book, ts: seq<string>)
    requires b.Valid() && |ts| > 0 && forall k :: 0 <= k < |ts| ==> Token(ts[k])
    ensures Step(b, Join(ts)) == Respond(b, ts)
  {
    SplitJoin(ts);
    assert Split("") == [];
    assert Join(ts) != "";
  }

  lemma RespondGoodBye(b: Book)
    requires b.Valid()
    ensures Respond(b, ["good", "bye"]) == Invalid
  {
    var ts := ["good", "bye"];
    assert ts[0] == "good";
    LowerNoCapitals("good");
    GoodWord();
  }

  /** "good bye" dispatches on "good", which is no command word. */
  lemma GoodByeIsInvalid(b: Book)
    requires b.Valid()
    ensures Step(b, "good bye") == Invalid
  {
    assert Token("good") && Token("bye") && "good" + " " + "bye" == "good bye";
    StepTwo(b, "good", "bye");
    RespondGoodBye(b);
  }

  lemma RespondShowAll(b: Book)
    requires b.Valid()
    ensures Respond(b, ["show", "all"]) == Failed(TypeError)
  {
    LowerNoCapitals("show");
    ShowOneFails(b, "show", "all");
  }

  /** "show" followed by any token is a TypeError. */
  lemma ShowOneFails(b: Book, verb: string, x: string)
    requires b.Valid() && Lower(verb) == "show"
    ensures Respond(b, [verb, x]) == Failed(TypeError)
  {
    var ts := [verb, x];
    assert ts[0] == verb && |ts| == 2;
    ShowWord();
    ArityMismatch(b, ts, ShowKind);
  }

  /** "show all" dispatches on "show" and hands the surplus token "all" to a
      constructor that takes nothing after the book. */
  lemma ShowAllFails(b: Book)
    requires b.Valid()
    ensures Step(b, "show all") == Failed(TypeError)
  {
    assert Token("show") && Token("all") && "show" + " " + "all" == "show all";
    StepTwo(b, "show", "all");
    RespondShowAll(b);
  }

  lemma SplitGetPhoneBob()
    ensures Split("get phone Bob") == ["get", "phone", "Bob"]
  {
    assert Token("get") && Token("phone") && Token("Bob");
    assert "get" + " " + "phone" + " " + "Bob" == "get phone Bob";
    SplitThree("get phone Bob", "get", "phone", "Bob");
  }

  lemma RespondGetPhoneBob(b: Book)
    requires b.Valid()
    ensures Respond(b, ["get", "phone", "Bob"]) == Failed(TypeError)
  {
    LowerNoCapitals("get");
    GetTwoFails(b, "get", "phone", "Bob");
  }

  /** "get" followed by two tokens is a TypeError whatever they are. */
  lemma GetTwoFails(b: Book, verb: string, x: string, y: string)
    requires b.Valid() && Lower(verb) == "get"
    ensures Respond(b, [verb, x, y]) == Failed(TypeError)
  {
    var ts := [verb, x, y];
    assert ts[0] == verb && |ts| == 3;
    GetWord();
    ArityMismatch(b, ts, GetKind);
  }

  /** "get phone Bob" dispatches on "get", whose constructor takes one name. */
  lemma GetPhoneBobFails(b: Book)
    requires b.Valid()
    ensures Step(b, "get phone Bob") == Failed(TypeError)
  {
    StepIsRespond(b, "get phone Bob");
    SplitGetPhoneBob();
    RespondGetPhoneBob(b);
  }

  /** A single command word whose class has no constructor. */
  lemma SingleWord(b: Book, word: string, kind: Kind)
    requires b.Valid() && Token(word)
    requires Lookup(Lower(word)) == Some(kind) && Parameters(kind) == NoConstructor
    ensures Step(b, word) == Failed(TypeError)
  {
    assert Join([word]) == word;
    JoinedStep(b, [word]);
    ArityMismatch(b, [word], kind);
  }

  /** The exit and greeting words never reach `execute`, so the loop does not
      print "Good bye" or "How can I help you?". */
  lemma ExitFails(b: Book)
    requires b.Valid()
    ensures Step(b, "exit") == Failed(TypeError)
  {
    assert Token("exit");
    LowerNoCapitals("exit");
    ExitWord();
    SingleWord(b, "exit", ExitKind);
  }

  lemma CloseFails(b: Book)
    requires b.Valid()
    ensures Step(b, "close") == Failed(TypeError)
  {
    assert Token("close");
    LowerNoCapitals("close");
    CloseWord();
    SingleWord(b, "close", ExitKind);
  }

  lemma HelloFails(b: Book)
    requires b.Valid()
    ensures Step(b, "hello") == Failed(TypeError)
  {
    assert Token("hello");
    LowerNoCapitals("hello");
    HelloWord();
    SingleWord(b, "hello", EnterKind);
  }

  /** Were an ExitCommand executed, it would print "Good bye" and end the
      loop; an EnterCommand would greet and go on. */
  lemma ExitWouldTerminate(b: Book)
    requires b.Valid()
    ensures Perform(Exit, b) == Printed(Farewell, b, true)
    ensures Perform(Enter, b) == Printed(Greeting, b, false)
  {
  }

  // ---------------------------------------------------------------------------
  // The four commands that can be typed

  lemma RespondAdd(b: Book, verb: string, name: string, phone: string)
    requires b.Valid() && Lower(verb) == "add"
    ensures Respond(b, [verb, name, phone])
         == Printed(AddConfirmation(name, phone), AddRecord(b, name, phone), false)
  {
    var ts := [verb, name, phone];
    assert ts[0] == verb && ts[1..] == [name, phone];
    AddWord();
    RespondTo(b, ts, AddKind);
  }

  /** "add <name> <phone>", with the command word in any case, stores the
      phone under the title-cased name and echoes the name as typed. */
  lemma StepAdd(b: Book, verb: string, name: string, phone: string)
    requires b.Valid() && Token(verb) && Lower(verb) == "add" && Token(name) && Token(phone)
    ensures Step(b, verb + " " + name + " " + phone)
         == Printed(AddConfirmation(name, phone), AddRecord(b, name, phone), false)
  {
    var line := verb + " " + name + " " + phone;
    SplitThree(line, verb, name, phone);
    StepIsRespond(b, line);
    RespondAdd(b, verb, name, phone);
  }

  lemma RespondChange(b: Book, verb: string, name: string, phone: string)
    requires b.Valid() && Lower(verb) == "change"
    ensures Title(name) in b.phones ==>
      Respond(b, [verb, name, phone])
        == Printed(ChangeConfirmation(name, phone), ChangePhone(b, name, phone).value, false)
    ensures Title(name) !in b.phones ==>
      Respond(b, [verb, name, phone]) == Failed(KeyError(NotFoundMessage))
  {
    var ts := [verb, name, phone];
    assert ts[0] == verb && ts[1..] == [name, phone];
    ChangeWord();
    RespondTo(b, ts, ChangeKind);
    assert Construct(ChangeKind, ts[1..]) == Ok(Change(name, phone));
  }

  /** "change <name> <phone>" replaces the phone of a present name and echoes
      the name as typed; on an absent name the KeyError ends the loop. */
  lemma StepChange(b: Book, verb: string, name: string, phone: string)
    requires b.Valid() && Token(verb) && Lower(verb) == "change" && Token(name) && Token(phone)
    ensures Title(name) in b.phones ==>
      Step(b, verb + " " + name + " " + phone)
        == Printed(ChangeConfirmation(name, phone), ChangePhone(b, name, phone).value, false)
    ensures Title(name) !in b.phones ==>
      Step(b, verb + " " + name + " " + phone) == Failed(KeyError(NotFoundMessage))
  {
    var line := verb + " " + name + " " + phone;
    SplitThree(line, verb, name, phone);
    StepIsRespond(b, line);
    RespondChange(b, verb, name, phone);
  }

  lemma RespondGet(b: Book, verb: string, name: string)
    requires b.Valid() && Lower(verb) == "get"
    ensures Title(name) in b.phones ==>
      Respond(b, [verb, name]) == Printed(PhoneReport(name, b.phones[Title(name)]), b, false)
    ensures Title(name) !in b.phones ==>
      Respond(b, [verb, name]) == Failed(KeyError(NotFoundMessage))
  {
    var ts := [verb, name];
    assert ts[0] == verb && ts[1..] == [name];
    GetWord();
    RespondTo(b, ts, GetKind);
    assert Construct(GetKind, ts[1..]) == Ok(Get(name));
    PerformGet(b, name);
  }

  lemma PerformGet(b: Book, name: string)
    requires b.Valid()
    ensures Title(name) in b.phones ==>
      Perform(Get(name), b) == Printed(PhoneReport(name, b.phones[Title(name)]), b, false)
    ensures Title(name) !in b.phones ==> Perform(Get(name), b) == Failed(KeyError(NotFoundMessage))
  {
  }

  /** "get <name>" reports the phone of a present name and leaves the book. */
  lemma StepGet(b: Book, verb: string, name: string)
    requires b.Valid() && Token(verb) && Lower(verb) == "get" && Token(name)
    ensures Title(name) in b.phones ==>
      Step(b, verb + " " + name) == Printed(PhoneReport(name, b.phones[Title(name)]), b, false)
    ensures Title(name) !in b.phones ==>
      Step(b, verb + " " + name) == Failed(KeyError(NotFoundMessage))
  {
    var line := verb + " " + name;
    SplitTwo(line, verb, name);
    StepIsRespond(b, line);
    RespondGet(b, verb, name);
  }

  /** "show" prints the listing and leaves the book. */
  lemma StepShow(b: Book, verb: string)
    requires b.Valid() && Token(verb) && Lower(verb) == "show"
    ensures Step(b, verb) == Printed(Listing(b), b, false)
  {
    assert Join([verb]) == verb;
    JoinedStep(b, [verb]);
    RespondShow(b, verb);
  }

  lemma RespondShow(b: Book, verb: string)
    requires b.Valid() && Lower(verb) == "show"
    ensures Respond(b, [verb]) == Printed(Listing(b), b, false)
  {
    var ts := [verb];
    assert ts[0] == verb && ts[1..] == [];
    ShowWord();
    RespondTo(b, ts, ShowKind);
    assert Construct(ShowKind, ts[1..]) == Ok(Show);
  }

  lemma JoinThree(a: string, b: string, c: string)
    ensures Join([a, b, c]) == a + " " + b + " " + c
  {
    assert [a, b, c][1..] == [b, c];
    assert [b, c][1..] == [c];
    assert Join([b, c]) == b + " " + c;
    assert Join([a, b, c]) == a + " " + (b + " " + c);
  }

  /** "add Carol 999" on an empty book saves Carol. */
  lemma AddCarol()
    ensures Empty.Valid()
    ensures Step(Empty, "add Carol 999")
         == Printed(AddConfirmation("Carol", "999"), AddRecord(Empty, "Carol", "999"), false)
  {
    EmptyValid();
    assert Token("add") && Token("Carol") && Token("999");
    LowerNoCapitals("add");
    assert "add" + " " + "Carol" + " " + "999" == "add Carol 999";
    StepAdd(Empty, "add", "Carol", "999");
  }

  /** ... and the store then returns "999" for "carol". */
  lemma CarolFound()
    ensures GetPhone(AddRecord(Empty, "Carol", "999"), "carol") == Ok("999")
  {
    EmptyValid();
    assert TitleFrom("arol", true) == "arol";
    assert Title("carol") == "Carol" && Title("Carol") == "Carol";
    GetAfterAdd(Empty, "Carol", "999", "carol");
  }
}
