# Address book bot — a Dafny model

`bot.py` is a command-line contact manager. It has two parts:

- An `AddressBook`: a Python dictionary from contact name to phone. Names are
  normalised with `str.title()` before every lookup and insert.
- A command layer. It splits each input line into tokens and lower-cases the
  first one. It looks that word up in a static table of command classes,
  builds a command bound to the book from the remaining tokens, runs the
  command's `execute`, and prints the result.

This project models both parts and proves what they promise.

| file | module | models |
|---|---|---|
| `outcomes.dfy` | `Outcomes` | the three exceptions the program raises (`KeyError`, `IndexError`, `TypeError`), carried as values by `Result` |
| `text.dfy` | `Text` | `str.title()`, `str.lower()` and `str.split()` on ASCII |
| `contacts.dfy` | `Contacts` | the book as a value, an insertion-ordered dictionary, with `add_record`, `change_phone`, `get_phone` and `show_all_contacts` as functions |
| `store.dfy` | `Store` | the `AddressBook` object, whose methods update its dictionary in place; each method is proved equal to the function in `Contacts` |
| `commands.dfy` | `Commands` | the command classes as one datatype, the dispatch table, construction from tokens, `execute`, and one pass of the loop (`Step`) |
| `repl.dfy` | `Repl` | the loop: `Run` folds `Step` over a sequence of lines, and `Serve` is the imperative `while` loop over the mutable book, proved equal to `Run` |

How the model reads the source:

- **Insertion order.** The dictionary is a pair of a key sequence and a map.
  `Book.Valid` says the sequence lists each key of the map exactly once.
  `Book.KeysTitled` says every key is already title-cased. Both hold for every
  book the loop reaches from the fresh start (`Repl.RunKeepsKeysTitled`, built
  on `Contacts.AddKeepsKeysTitled`, which uses that `Title` is idempotent).
  Overwriting a key keeps its position. A new key goes
  at the end.
- **Dispatch table.** The dictionary `commands` is a list of entries in its
  insertion order (`Commands.Table`). Looking a word up walks the list.
- **Title case.** A letter is upper-cased when it is first or follows a
  non-letter. Every other letter is lower-cased. So "mary-ann" becomes
  "Mary-Ann" and "3rd" becomes "3Rd", as in Python.
- **Uncaught exceptions.** The source catches nothing. A `KeyError` from
  `change`/`get`, the `IndexError` of a whitespace-only line and the
  `TypeError` of a wrong argument count all end the program. The loop's
  status becomes `Crashed`, and no later line is read.
- **Exit and greeting words do not work.** `ExitCommand` and `EnterCommand`
  define no constructor. The constructor they inherit takes no arguments, but
  the dispatcher always passes the address book. So "exit", "close" and
  "hello" raise `TypeError` and print nothing (`Commands.ExitFails`,
  `Repl.NeverExits`), although `ExitCommand.execute` returns "Good bye" and
  `EnterCommand.execute` returns "How can I help you?" (bot.py:24-31). The `break` after an
  `ExitCommand` is still modelled (`Commands.ExitWouldTerminate`), but no
  input reaches it.
- **Multi-word table keys.** Only the first token is looked up, so the keys
  "good bye", "show all", "show all contacts" and "get phone" can never match
  (`Commands.MultiWordKeysUnreachable`). "good bye" is an invalid command.
  "show all" and "get phone Bob" pass a surplus token and raise `TypeError`.
- **Confirmation strings.** The `add` and `change` messages echo the name and
  phone as typed, not title-cased (`Commands.StepAdd`).

## Model

| member | source | states |
|---|---|---|
| `Text.Lower` | bot.py:131 | `str.lower()` keeps the length, leaves no capital letter, keeps which characters are letters, and changes nothing but capitals. |
| `Text.LowerIgnoresCase` | bot.py:131-132 | Two words lower-case to the same word exactly when they differ at most in letter case, so the command word is matched in any case. |
| `Text.LowerIdempotent` | bot.py:131 | Lower-casing an already lower-cased word changes nothing. |
| `Text.Title` | bot.py:82 | `str.title()` keeps the length and changes nothing but the case of letters. |
| `Text.TitleAt` | bot.py:82 | `str.title()` keeps the length. A letter that starts a run of letters becomes upper case, any other letter lower case, and a non-letter stays as it is. |
| `Text.TitleIdempotent` | bot.py:81-83 | Title-casing an already title-cased name changes nothing. |
| `Text.TitleIgnoresCase` | bot.py:92-95 | Two names that differ only in letter case title-case to the same key. |
| `Text.Split` | bot.py:130 | Every token of `split()` is non-empty and holds no whitespace. |
| `Text.SplitEmptyIff` | bot.py:128-131 | A line splits into no tokens exactly when it is all whitespace. |
| `Text.SplitKeepsText` | bot.py:130 | The tokens put back together are the line with its whitespace removed, so no character is lost or invented. |
| `Text.SplitJoin` | bot.py:130-134 | Splitting tokens that were joined with single spaces gives back the same tokens in order. |
| `Text.LowerToken` | bot.py:131 | Lower-casing a token keeps it a whitespace-free token. |
| `Contacts.EmptyValid` | bot.py:72-76 | The fresh-start book has no contacts, meets the store invariant and has only title-cased keys. |
| `Contacts.AddRecord` | bot.py:81-83 | The title-cased name maps to the new phone, and no other entry changes. The key set grows by exactly that name. An existing key keeps its position, and a new key is appended as the last entry. The invariant is kept. |
| `Contacts.ChangePhone` | bot.py:85-90 | Fails with `KeyError("Contact not found. Please enter a valid name.")` exactly when the title-cased name is absent. Otherwise it replaces only that phone and keeps the key order and key set. |
| `Contacts.GetPhone` | bot.py:92-97 | Returns the phone stored under the title-cased name. It fails with the not-found `KeyError` exactly when that name is absent. |
| `Contacts.AddKeepsKeysTitled` | bot.py:81-83 | After `add_record` every key of a book with title-cased keys is still title-cased. |
| `Contacts.ChangeKeepsKeysTitled` | bot.py:85-90 | A successful `change_phone` keeps every key title-cased. |
| `Contacts.GetAfterAdd` | bot.py:81-95 | After adding a name, every spelling with the same title case finds the new phone, and lookups of other names return what they did before. |
| `Contacts.GetIgnoresCase` | bot.py:92-95 | Looking up a case variant of a name gives the same result as the name. |
| `Contacts.ListedNamesFound` | bot.py:92-105 | In a book whose keys are title-cased, every name can be looked up as it is listed. |
| `Contacts.AddCaseVariant` | bot.py:81-83 | Adding a case variant of a name just added, with the same phone, leaves one entry and not two. |
| `Contacts.AddPresent` | bot.py:81-83 | Adding a name the book holds keeps the key order and replaces only that phone. |
| `Contacts.AddAbsent` | bot.py:81-83 | Adding a name the book does not hold appends its title-cased key to the order. |
| `Contacts.AddOverwrites` | bot.py:81-83 | Re-adding a name with the same title case overwrites the phone in place and changes nothing else. |
| `Contacts.ChangeIsAddWhenPresent` | bot.py:81-88 | On a present name, `change_phone` does exactly what `add_record` does. |
| `Contacts.LinesAppend` | bot.py:103-104 | The listing lines of two consecutive runs of names are the two listings concatenated. |
| `Contacts.Listing` | bot.py:99-105 | The listing is "No contacts found." exactly when the book is empty; otherwise it starts with "Addressbook:\n". |
| `Contacts.ListingEmptyIff` | bot.py:99-101 | The listing is "No contacts found." exactly when the book is empty. |
| `Contacts.ListingInOrder` | bot.py:102-105 | A non-empty listing is "Addressbook:\n" followed by one "name: phone\n" line per contact. The line of the i-th inserted name comes after exactly the lines of the names inserted before it. |
| `Contacts.ListingAfterNewAdd` | bot.py:81-105 | Adding a new name appends its line at the end of the listing. |
| `Contacts.ListingOfOne` | bot.py:99-105 | A book of one contact lists as the header and that contact's "name: phone\n" line. |
| `Contacts.ListingOfAlice` | bot.py:99-105 | The book {"Alice": "1"} lists as "Addressbook:\nAlice: 1\n". |
| `Contacts.AliceTwice` | bot.py:81-83 | Adding "Alice" with "555" and then "alice" with "555" leaves the single contact "Alice" with "555". |
| `Contacts.BobThenBOB` | bot.py:81-95 | After adding "bob" with "123", looking up "BOB" gives "123". |
| `Contacts.NobodyInEmpty` | bot.py:92-97 | In the empty book, every lookup fails with the not-found `KeyError`. |
| `Store.AddressBook.constructor` | bot.py:63-76 | A fresh start: empty dictionary, `last_record_id` 0 and no records. |
| `Store.AddressBook.AddRecord` | bot.py:81-83 | The in-place update leaves the object's dictionary equal to `Contacts.AddRecord` of the old one. The invariant is kept, and the legacy fields are outside the frame. |
| `Store.AddressBook.ChangePhone` | bot.py:85-90 | Either it writes the phone and the new dictionary is `Contacts.ChangePhone` of the old one, or it returns the not-found error and writes nothing. |
| `Store.AddressBook.GetPhone` | bot.py:92-97 | Returns `Contacts.GetPhone` of the current dictionary and modifies nothing. |
| `Store.AddressBook.ShowAllContacts` | bot.py:99-105 | The string built line by line in the loop equals `Contacts.Listing` of the dictionary. |
| `Commands.Construct` | bot.py:133-135 | Construction succeeds exactly when the argument count is what the class's constructor takes after the book: 2 for add and change, 1 for get, 0 for show, and never for Exit/Enter. The command then holds the class and the arguments in order. Any other count is a `TypeError`. |
| `Commands.Lookup` | bot.py:112-133 | A class is found exactly for the eleven keys of the `commands` dictionary. |
| `Commands.AddWord` | bot.py:113 | "add" names `AddCommand`. |
| `Commands.CloseWord` | bot.py:115 | "close" names `ExitCommand`. |
| `Commands.ExitWord` | bot.py:116 | "exit" names `ExitCommand`. |
| `Commands.HelloWord` | bot.py:117 | "hello" names `EnterCommand`. |
| `Commands.ChangeWord` | bot.py:118 | "change" names `ChangePhoneCommand`. |
| `Commands.ShowWord` | bot.py:119 | "show" names `ShowAllContactsCommand`. |
| `Commands.GetWord` | bot.py:122 | "get" names `GetPhoneCommand`. |
| `Commands.Execute` | bot.py:19-59 | Only change and get can fail, exactly on an absent title-cased name, with the not-found `KeyError`. Only add and change alter the book: the title-cased name then maps to the given phone, every other contact keeps its phone, the key set grows by at most that name, and the existing order is kept. Each command returns its own message: the add and change confirmations, the phone report, the listing, "How can I help you?" and "Good bye". The new book is valid. |
| `Commands.ExecuteKeepsKeysTitled` | bot.py:19-59 | Executing any command keeps every key of the book title-cased. |
| `Commands.Perform` | bot.py:136-139 | Running a constructed command prints its result or raises. The loop stops after printing exactly when the command is an `ExitCommand`. |
| `Commands.Respond` | bot.py:130-141 | Answering the tokens of a line never skips it. It raises `IndexError` exactly when there is no token. It is invalid exactly when the lower-cased first token is no table key. A printed result keeps the book valid and never ends the loop. |
| `Commands.RespondTo` | bot.py:132-136 | Once the first token names a class, the outcome is that of constructing the class from the remaining tokens and executing it. |
| `Commands.Step` | bot.py:126-141 | The empty line is skipped exactly when the line is "". A whitespace-only line fails with `IndexError`. The line is invalid exactly when its lower-cased first token is no table key. Any other error comes from a known command word. A printed result keeps the book valid and never ends the loop. |
| `Commands.StepKeepsKeysTitled` | bot.py:126-141 | Answering any line keeps every key of the book title-cased. |
| `Commands.MultiWordKeysUnreachable` | bot.py:112-131 | The lower-cased first token is never "good bye", "show all", "show all contacts" or "get phone". |
| `Commands.GoodByeIsInvalid` | bot.py:112-141 | Typing "good bye" gives the invalid-command outcome. |
| `Commands.ShowAllFails` | bot.py:112-135 | Typing "show all" raises `TypeError`. |
| `Commands.GetPhoneBobFails` | bot.py:112-135 | Typing "get phone Bob" raises `TypeError`. |
| `Commands.JoinedStep` | bot.py:128-131 | A line made of tokens joined by single spaces is answered from exactly those tokens, unchanged and in order. |
| `Commands.GoodWord` | bot.py:112-124 | "good" is not a key of the dispatch table. |
| `Commands.ArityMismatch` | bot.py:133-135 | A known command word with the wrong number of arguments raises `TypeError`. |
| `Commands.GetTwoFails` | bot.py:130-135 | "get" followed by two tokens raises `TypeError`. |
| `Commands.ShowOneFails` | bot.py:130-135 | "show" followed by one token raises `TypeError`. |
| `Commands.SingleWord` | bot.py:24-31 | A command word whose class defines no constructor raises `TypeError` when typed alone. |
| `Commands.ExitFails` | bot.py:116 | Typing "exit" raises `TypeError`, not "Good bye". |
| `Commands.CloseFails` | bot.py:115 | Typing "close" raises `TypeError`. |
| `Commands.HelloFails` | bot.py:117 | Typing "hello" raises `TypeError`. |
| `Commands.ExitWouldTerminate` | bot.py:24-31 | An `ExitCommand`, if one were built, prints "Good bye" and ends the loop. An `EnterCommand` prints "How can I help you?" and does not. |
| `Commands.StepAdd` | bot.py:13-21 | "add NAME PHONE", with the command word in any case, stores PHONE under the title-cased NAME. It prints "Contact NAME with phone PHONE saved" with the name as typed. |
| `Commands.StepChange` | bot.py:34-42 | "change NAME PHONE" updates a present name and echoes it as typed. On an absent name it raises the not-found `KeyError`. |
| `Commands.StepGet` | bot.py:45-51 | "get NAME" prints "The phone number for contact NAME is P" and leaves the book. On an absent name it raises the not-found `KeyError`. |
| `Commands.StepShow` | bot.py:54-59 | "show" prints the listing and leaves the book. |
| `Commands.AddCarol` | bot.py:13-21 | "add Carol 999" on the empty book saves Carol with 999. |
| `Commands.CarolFound` | bot.py:92-95 | The store then returns "999" for "carol". |
| `Repl.Feed` | bot.py:126-141 | A stopped loop reads nothing more. Otherwise at most one message is appended to the output, and the book changes only through a printed command result. |
| `Repl.Run` | bot.py:126-141 | The loop over any line sequence keeps the book valid. |
| `Repl.RunAfterStop` | bot.py:136-139 | Once the loop has stopped, by exit or by exception, later lines change nothing. |
| `Repl.RunExtendsOutput` | bot.py:137 | Output already printed stays printed, in order. |
| `Repl.NeverExits` | bot.py:135-139 | No input sequence ends the loop through its `break`. |
| `Repl.RunKeepsKeysTitled` | bot.py:126-141 | Every book the loop reaches from a book with title-cased keys has title-cased keys. |
| `Repl.SessionNamesFound` | bot.py:92-141 | From the fresh start, after any input, every name the book lists can be looked up as it is listed. |
| `Repl.EmptyLineSkipped` | bot.py:128-129 | An empty line leaves the session unchanged. |
| `Repl.InvalidLineKeepsBook` | bot.py:140-141 | A line with an unknown command word prints "Invalid command. Please try again." and leaves the book and the loop state unchanged. |
| `Repl.KeepsBook` | bot.py:19-59 | Lines that are not add or change commands never change the book. |
| `Repl.ExitSession` | bot.py:135 | A session that types "exit" ends with `TypeError`, has printed nothing, and keeps the book. |
| `Repl.BobSession` | bot.py:126-141 | The lines "add bob 123" and then "get BOB" print the add confirmation for "bob" and then "The phone number for contact BOB is 123". |
| `Repl.ExecuteOn` | bot.py:136 | Running a command on the mutable book returns what `Commands.Execute` returns and leaves the book as `Execute` says. On an error, nothing is written. |
| `Repl.Dispatch` | bot.py:127-141 | One pass of the loop body on the mutable book leaves the book, the output and the loop status that `Repl.Feed` gives. |
| `Repl.Serve` | bot.py:126-141 | The imperative loop ends with the book, output and status that `Repl.Run` gives for the same lines. |

## Left out

- `dump`/`load` (bot.py:68-79) are file I/O through `pickle`. Only the fresh start is modelled, when there is no saved file. A book loaded from a file may hold keys that are not title-cased. `Book.KeysTitled` excludes such books, and only the lemmas that need title-cased keys require it.
- `input()` and `print()` are left out. The lines are a parameter, and the printed results are returned as a sequence. Running out of lines just stops the model; the `EOFError` that `input()` would raise there is not modelled.
- Python's `ABC`, `abstractmethod` and `UserDict` machinery is replaced by the `Command` datatype and an explicit ordered map.
- Casing and whitespace use ASCII rules. Characters outside ASCII are treated as uncased and not whitespace, whereas Python applies Unicode rules to them.
- The text of the `TypeError` and `IndexError` messages is not modelled, and neither are tracebacks. The not-found `KeyError` keeps its message exactly.
- The element type of the legacy `records` list is unknown; it is modelled as a sequence of strings that nothing touches. `last_record_id` is an `int` that nothing touches.
