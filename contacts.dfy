/** The address book as a value: a Python dictionary from title-cased name to
    phone, which remembers the order in which its keys were first inserted,
    and the operations of bot.py's AddressBook class as functions on it. */
module Contacts {
  import opened Text
  import opened Outcomes

  const NotFoundMessage: string := "Contact not found. Please enter a valid name."
  const NoContacts: string := "No contacts found."
  const ListingHeader: string := "Addressbook:\n"

  predicate Distinct(s: seq<string>) {
    forall i, j :: 0 <= i < j < |s| ==> s[i] != s[j]
  }

  /** `names` lists the keys of `phones` in insertion order. */
  datatype Book = Book(names: seq<string>, phones: map<string, string>) {
    /** The dictionary's shape: `names` holds each key once. */
    ghost predicate Valid() {
      && Distinct(names)
      && (forall i :: 0 <= i < |names| ==> names[i] in phones)
      && (forall k :: k in phones ==> k in names)
    }

    /** The store's own invariant: every key went through `str.title()`. */
    ghost predicate KeysTitled() {
      forall k :: k in phones ==> Title(k) == k
    }
  }

  /** The state `load()` sets up when there is no saved file. */
  const Empty: Book := Book([], map[])

  lemma EmptyValid()
    ensures Empty.Valid() && Empty.KeysTitled() && |Empty.phones| == 0
  {
  }

  /** `add_record`: store `phone` under the title-cased `name`, overwriting an
      existing entry in its place or appending a new one. */
  function AddRecord(b: Book, name: string, phone: string): (r: Book)
    requires b.Valid()
    ensures r.Valid()
    ensures Title(name) in r.phones && r.phones[Title(name)] == phone
    ensures forall k :: k != Title(name) ==>
      (k in r.phones <==> k in b.phones) && (k in b.phones ==> r.phones[k] == b.phones[k])
    ensures r.phones.Keys == b.phones.Keys + {Title(name)}
    ensures |r.names| == if Title(name) in b.phones then |b.names| else |b.names| + 1
    ensures r.names[..|b.names|] == b.names
    ensures Title(name) !in b.phones ==> r.names[|b.names|] == Title(name)
  {
    var key := Title(name);
    if key in b.phones then Book(b.names, b.phones[key := phone])
    else
      Appended(b, key, phone);
      Book(b.names + [key], b.phones[key := phone])
  }

  /** A new key appended to the order and stored keeps the book's shape. */
  lemma Appended(b: Book, key: string, phone: string)
    requires b.Valid() && key !in b.phones
    ensures Book(b.names + [key], b.phones[key := phone]).Valid()
    ensures (b.names + [key])[..|b.names|] == b.names
  {
    var names := b.names + [key];
    forall i, j | 0 <= i < j < |names|
      ensures names[i] != names[j]
    {
      if j == |b.names| {
        assert names[i] == b.names[i] && b.names[i] in b.phones;
      }
    }
  }

  /** `change_phone`: replace the phone of the title-cased `name`, or fail
      with KeyError when the book has no such contact. */
  function ChangePhone(b: Book, name: string, phone: string): (r: Result<Book>)
    requires b.Valid()
    ensures r.Ok? <==> Title(name) in b.phones
    ensures r.Err? ==> r.error == KeyError(NotFoundMessage)
    ensures r.Ok? ==> && r.value.Valid()
                      && r.value.names == b.names
                      && r.value.phones.Keys == b.phones.Keys
                      && r.value.phones[Title(name)] == phone
                      && (forall k :: k in b.phones && k != Title(name) ==> r.value.phones[k] == b.phones[k])
  {
    var key := Title(name);
    if key in b.phones then Ok(Book(b.names, b.phones[key := phone]))
    else Err(KeyError(NotFoundMessage))
  }

  /** `get_phone`: the phone of the title-cased `name`, or KeyError. */
  function GetPhone(b: Book, name: string): (r: Result<string>)
    ensures r.Ok? <==> Title(name) in b.phones
    ensures r.Ok? ==> r.value == b.phones[Title(name)]
    ensures r.Err? ==> r.error == KeyError(NotFoundMessage)
  {
    var key := Title(name);
    if key in b.phones then Ok(b.phones[key]) else Err(KeyError(NotFoundMessage))
  }

  /** One line of the listing. */
  function Line(name: string, phone: string): string {
    name + ": " + phone + "\n"
  }

  /** The lines of `names`, in the order of `names`. */
  function Lines(names: seq<string>, phones: map<string, string>): string
    requires forall i :: 0 <= i < |names| ==> names[i] in phones
  {
    if names == [] then ""
    else
      var last := names[|names| - 1];
      Lines(names[..|names| - 1], phones) + Line(last, phones[last])
  }

  /** `show_all_contacts`. */
  function Listing(b: Book): (r: string)
    requires b.Valid()
    ensures r == NoContacts <==> b.phones == map[]
    ensures b.phones != map[] ==> |ListingHeader| <= |r| && r[..|ListingHeader|] == ListingHeader
  {
    if b.phones == map[] then NoContacts
    else
      var listing := ListingHeader + Lines(b.names, b.phones);
      assert listing[0] == 'A' != NoContacts[0];
      assert listing[..|ListingHeader|] == ListingHeader;
      listing
  }

  // ---------------------------------------------------------------------------
  // Lookups after updates

  /** A phone added under one spelling of a name is found under every spelling
      with the same title case ("bob" then "BOB"), and lookups of other names
      are not affected. */
  lemma GetAfterAdd(b: Book, name: string, phone: string, query: string)
    requires b.Valid()
    ensures Title(query) == Title(name) ==> GetPhone(AddRecord(b, name, phone), query) == Ok(phone)
    ensures Title(query) != Title(name) ==>
      GetPhone(AddRecord(b, name, phone), query) == GetPhone(b, query)
  {
  }

  /** A case variant of a name can be used to look it up. */
  lemma GetIgnoresCase(b: Book, name: string, query: string)
    requires EqualIgnoringCase(name, query)
    ensures GetPhone(b, query) == GetPhone(b, name)
  {
    TitleIgnoresCase(name, query);
  }

  /** Every book reached from the fresh start has title-cased keys: adding
      keeps that because title-casing is idempotent, and changing a phone
      keeps the keys. */
  lemma AddKeepsKeysTitled(b: Book, name: string, phone: string)
    requires b.Valid() && b.KeysTitled()
    ensures AddRecord(b, name, phone).KeysTitled()
  {
    TitleIdempotent(name);
  }

  lemma ChangeKeepsKeysTitled(b: Book, name: string, phone: string)
    requires b.Valid() && b.KeysTitled() && ChangePhone(b, name, phone).Ok?
    ensures ChangePhone(b, name, phone).value.KeysTitled()
  {
  }

  /** Every name the book lists can be looked up as it is listed. */
  lemma ListedNamesFound(b: Book, i: nat)
    requires b.Valid() && b.KeysTitled() && i < |b.names|
    ensures GetPhone(b, b.names[i]) == Ok(b.phones[b.names[i]])
  {
    assert b.names[i] in b.phones;
  }

  /** Adding the same phone under a case variant of a name that was just added
      leaves exactly what the first add left: one entry, not two. */
  lemma AddCaseVariant(b: Book, name: string, variant: string, phone: string)
    requires b.Valid() && EqualIgnoringCase(name, variant)
    ensures AddRecord(AddRecord(b, name, phone), variant, phone) == AddRecord(b, name, phone)
  {
    TitleIgnoresCase(name, variant);
    var once := AddRecord(b, name, phone);
    var twice := AddRecord(once, variant, phone);
    assert twice.names == once.names;
    assert twice.phones == once.phones;
  }

  /** Re-adding a name overwrites its phone and nothing else. */
  lemma AddOverwrites(b: Book, name: string, variant: string, p1: string, p2: string)
    requires b.Valid() && Title(name) == Title(variant)
    ensures AddRecord(AddRecord(b, name, p1), variant, p2) == AddRecord(b, name, p2)
  {
    var once := AddRecord(b, name, p1);
    AddPresent(once, variant, p2);
    AddSameOrder(b, name, p1, p2);
  }

  /** Two adds of one name to the same book differ in the phone only. */
  lemma AddSameOrder(b: Book, name: string, p1: string, p2: string)
    requires b.Valid()
    ensures AddRecord(b, name, p1).names == AddRecord(b, name, p2).names
    ensures AddRecord(b, name, p1).phones[Title(name) := p2] == AddRecord(b, name, p2).phones
  {
    var key := Title(name);
    assert b.phones[key := p1][key := p2] == b.phones[key := p2];
  }

  /** Adding a name the book holds keeps the order and replaces the phone. */
  lemma AddPresent(b: Book, name: string, phone: string)
    requires b.Valid() && Title(name) in b.phones
    ensures AddRecord(b, name, phone) == Book(b.names, b.phones[Title(name) := phone])
  {
  }

  /** Changing the phone of a present name is the same as adding it again. */
  lemma ChangeIsAddWhenPresent(b: Book, name: string, phone: string)
    requires b.Valid() && Title(name) in b.phones
    ensures ChangePhone(b, name, phone) == Ok(AddRecord(b, name, phone))
  {
  }

  // ---------------------------------------------------------------------------
  // The listing

  lemma {:induction false} LinesAppend(a: seq<string>, c: seq<string>, phones: map<string, string>)
    requires forall i :: 0 <= i < |a| ==> a[i] in phones
    requires forall i :: 0 <= i < |c| ==> c[i] in phones
    ensures Lines(a + c, phones) == Lines(a, phones) + Lines(c, phones)
    decreases |c|
  {
    if c == [] {
      assert a + c == a;
    } else {
      var c', x := c[..|c| - 1], c[|c| - 1];
      assert (a + c)[..|a + c| - 1] == a + c' && (a + c)[|a + c| - 1] == x;
      LinesAppend(a, c', phones);
      Associative(Lines(a, phones), Lines(c', phones), Line(x, phones[x]));
    }
  }

  lemma {:induction false} LinesAgree(names: seq<string>, m1: map<string, string>, m2: map<string, string>)
    requires forall i :: 0 <= i < |names| ==> names[i] in m1 && names[i] in m2 && m1[names[i]] == m2[names[i]]
    ensures Lines(names, m1) == Lines(names, m2)
  {
    if names != [] {
      LinesAgree(names[..|names| - 1], m1, m2);
    }
  }

  /** The listing is "No contacts found." exactly when the book is empty. */
  lemma ListingEmptyIff(b: Book)
    requires b.Valid()
    ensures Listing(b) == NoContacts <==> b.names == []
    ensures Listing(b) == NoContacts <==> |b.phones| == 0
  {
    assert b.names != [] ==> b.names[0] in b.phones;
    if b.phones != map[] {
      var k :| k in b.phones;
      assert k in b.names;
    }
  }

  lemma LinesSplitAt(names: seq<string>, phones: map<string, string>, i: nat)
    requires forall j :: 0 <= j < |names| ==> names[j] in phones
    requires i < |names|
    ensures Lines(names, phones) == Lines(names[..i], phones)
                                    + Line(names[i], phones[names[i]])
                                    + Lines(names[i + 1..], phones)
  {
    var before, at, after := names[..i], [names[i]], names[i + 1..];
    assert names == before + at + after;
    LinesAppend(before + at, after, phones);
    LinesAppend(before, at, phones);
    assert at[..0] == [];
  }

  /** A non-empty listing is the header followed by one line per contact in
      insertion order: the line of the i-th inserted name comes after exactly
      the lines of the names inserted before it. */
  lemma ListingInOrder(b: Book, i: nat)
    requires b.Valid() && i < |b.names|
    ensures Listing(b) == ListingHeader + Lines(b.names[..i], b.phones)
                          + Line(b.names[i], b.phones[b.names[i]])
                          + Lines(b.names[i + 1..], b.phones)
  {
    assert b.names[i] in b.phones;
    LinesSplitAt(b.names, b.phones, i);
    var x, y, z := Lines(b.names[..i], b.phones), Line(b.names[i], b.phones[b.names[i]]), Lines(b.names[i + 1..], b.phones);
    assert Listing(b) == ListingHeader + ((x + y) + z);
    Associative(ListingHeader, x + y, z);
    Associative(ListingHeader, x, y);
  }

  lemma LinesAfterAppend(names: seq<string>, phones: map<string, string>, key: string, phone: string)
    requires forall j :: 0 <= j < |names| ==> names[j] in phones
    requires key !in phones
    ensures Lines(names + [key], phones[key := phone]) == Lines(names, phones) + Line(key, phone)
  {
    assert (names + [key])[..|names|] == names;
    LinesAgree(names, phones, phones[key := phone]);
  }

  /** Adding a new name appends its line to the end of the listing. */
  lemma ListingAfterNewAdd(b: Book, name: string, phone: string)
    requires b.Valid() && Title(name) !in b.phones
    ensures Listing(AddRecord(b, name, phone))
         == (if b.phones == map[] then ListingHeader else Listing(b)) + Line(Title(name), phone)
  {
    var key := Title(name);
    var r := AddRecord(b, name, phone);
    AddAbsent(b, name, phone);
    LinesAfterAppend(b.names, b.phones, key, phone);
    assert Listing(r) == ListingHeader + (Lines(b.names, b.phones) + Line(key, phone));
    ListingOrHeader(b);
    Associative(ListingHeader, Lines(b.names, b.phones), Line(key, phone));
  }

  /** Adding a name the book does not hold appends it to the order. */
  lemma AddAbsent(b: Book, name: string, phone: string)
    requires b.Valid() && Title(name) !in b.phones
    ensures AddRecord(b, name, phone) == Book(b.names + [Title(name)], b.phones[Title(name) := phone])
  {
  }

  /** The header followed by the lines of all contacts, none for an empty book. */
  lemma ListingOrHeader(b: Book)
    requires b.Valid()
    ensures (if b.phones == map[] then ListingHeader else Listing(b)) == ListingHeader + Lines(b.names, b.phones)
  {
    ListingEmptyIff(b);
    if b.phones == map[] {
      assert ListingHeader + "" == ListingHeader;
    }
  }

  lemma Associative(a: string, b: string, c: string)
    ensures a + (b + c) == (a + b) + c
  {
  }

  /** The listing of a book holding only {"Alice": "1"}. */
  lemma ListingOfAlice()
    ensures Listing(Book(["Alice"], map["Alice" := "1"])) == "Addressbook:\nAlice: 1\n"
  {
    ListingOfOne("Alice", "1");
  }

  /** A book of one contact lists as the header and that contact's line. */
  lemma ListingOfOne(name: string, phone: string)
    ensures Book([name], map[name := phone]).Valid()
    ensures Listing(Book([name], map[name := phone])) == ListingHeader + Line(name, phone)
  {
    var b := Book([name], map[name := phone]);
    assert name in b.phones;
    assert b.names[..0] == [] && b.names[0] == name;
    assert Lines(b.names, b.phones) == Line(name, phone);
  }

  /** "Alice" with "555" followed by "alice" with "555" leaves one contact. */
  lemma AliceTwice()
    ensures AddRecord(AddRecord(Empty, "Alice", "555"), "alice", "555")
         == Book(["Alice"], map["Alice" := "555"])
  {
    assert Title("Alice") == "Alice";
    assert Title("alice") == "Alice";
  }

  /** "bob" with "123", then looking up "BOB", gives "123". */
  lemma BobThenBOB()
    ensures GetPhone(AddRecord(Empty, "bob", "123"), "BOB") == Ok("123")
  {
    assert Title("bob") == "Bob";
    assert TitleFrom("B", true) == "b";
    assert TitleFrom("OB", true) == "ob";
    assert Title("BOB") == "Bob";
  }

  /** Nobody is found in an empty book. */
  lemma NobodyInEmpty(name: string)
    ensures GetPhone(Empty, name) == Err(KeyError(NotFoundMessage))
  {
  }
}
