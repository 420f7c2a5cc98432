/** bot.py's AddressBook object: a dictionary updated in place, with the two
    legacy fields that are only ever written back to the saved file. */
module Store {
  import opened Text
  import opened Outcomes
  import Contacts

  class AddressBook {
    /** The dictionary's keys in insertion order, and the dictionary itself. */
    var names: seq<string>
    var phones: map<string, string>
    /** Legacy fields: set by `load()` and never changed by any operation. */
    var lastRecordId: int
    var records: seq<string>

    /** The dictionary as a value. */
    function Model(): Contacts.Book
      reads this
    {
      Contacts.Book(names, phones)
    }

    ghost predicate Valid()
      reads this
    {
      Model().Valid()
    }

    /** A fresh start: `load()` when the saved file does not exist. */
    constructor ()
      ensures Valid() && Model() == Contacts.Empty
      ensures lastRecordId == 0 && records == []
    {
      names, phones := [], map[];
      lastRecordId, records := 0, [];
    }

    /** `add_record`. */
    method AddRecord(name: string, phone: string)
      requires Valid()
      modifies this`names, this`phones
      ensures Valid()
      ensures Model() == Contacts.AddRecord(old(Model()), name, phone)
    {
      var key := Title(name);
      if key !in phones {
        names := names + [key];
      }
      phones := phones[key := phone];
      assert Model() == Contacts.AddRecord(old(Model()), name, phone);
    }

    /** `change_phone`: on a missing name nothing is written. */
    method ChangePhone(name: string, phone: string) returns (r: Result<()>)
      requires Valid()
      modifies this`phones
      ensures Valid()
      ensures match Contacts.ChangePhone(old(Model()), name, phone)
              case Ok(b) => r == Ok(()) && Model() == b
              case Err(e) => r == Err(e) && Model() == old(Model())
    {
      var key := Title(name);
      if key in phones {
        phones := phones[key := phone];
        r := Ok(());
      } else {
        r := Err(KeyError(Contacts.NotFoundMessage));
      }
    }

    /** `get_phone`. */
    method GetPhone(name: string) returns (r: Result<string>)
      ensures r == Contacts.GetPhone(Model(), name)
    {
      var key := Title(name);
      if key in phones {
        r := Ok(phones[key]);
      } else {
        r := Err(KeyError(Contacts.NotFoundMessage));
      }
    }

    /** `show_all_contacts`: the listing accumulated line by line. */
    method ShowAllContacts() returns (r: string)
      requires Valid()
      ensures r == Contacts.Listing(Model())
    {
      if phones == map[] {
        return Contacts.NoContacts;
      }
      r := Contacts.ListingHeader;
      for i := 0 to |names|
        invariant r == Contacts.ListingHeader + Contacts.Lines(names[..i], phones)
      {
        assert names[..i + 1][..i] == names[..i];
        r := r + Contacts.Line(names[i], phones[names[i]]);
      }
      assert names[..|names|] == names;
    }
  }
}
