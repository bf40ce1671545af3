/**
 * Sequences of operations on a fresh `contacts.db`, with what the contracts
 * of the operations let a caller conclude about them.
 */
module Scenarios {
  import opened Validation
  import opened SqlLike
  import opened ContactsDb

  /** A valid contact that was added shows up in the listing with its own fields and a fresh id. */
  method AddThenView(name: string, phone: string, email: string, address: string)
    returns (o: Outcome, listed: seq<Contact>)
    requires IsPhone(phone) && EmailAccepted(email)
    ensures o.Added? && o.id == 1
    ensures listed == [Contact(o.id, name, phone, email, address)]
  {
    var book := new ContactBook();
    book.CreateSchema();
    o := book.AddContact(name, phone, email, address);
    listed := book.ViewContacts();
    assert multiset(listed) == multiset{Contact(o.id, name, phone, email, address)};
    assert |listed| == 1 by {
      assert |multiset(listed)| == 1;
    }
    assert listed[0] in multiset(listed);
  }

  /** A second add with the same phone is refused and the table keeps one row with that phone. */
  method SamePhoneTwice(phone: string, first: string, second: string)
    returns (o1: Outcome, o2: Outcome, listed: seq<Contact>)
    requires IsPhone(phone)
    ensures o1.Added? && o2 == DuplicatePhone
    ensures |listed| == 1 && listed[0].phone == phone && listed[0].name == first
  {
    var book := new ContactBook();
    book.CreateSchema();
    o1 := book.AddContact(first, phone, "", "");
    o2 := book.AddContact(second, phone, "", "");
    listed := book.ViewContacts();
    assert book.rows == [Contact(o1.id, first, phone, "", "")];
    assert |listed| == 1 by {
      assert |multiset(listed)| == |multiset(book.rows)|;
    }
    assert listed[0] in multiset(book.rows);
  }

  /** Running the schema creation again at the next start-up keeps every row. */
  method RestartKeepsRows(name: string, phone: string) returns (before: seq<Contact>, after: seq<Contact>)
    requires IsPhone(phone)
    ensures before != [] && multiset(after) == multiset(before)
  {
    var book := new ContactBook();
    book.CreateSchema();
    var o := book.AddContact(name, phone, "", "");
    before := book.ViewContacts();
    book.CreateSchema();
    after := book.ViewContacts();
    assert |multiset(before)| == 1;
  }

  /** An update that supplies only the address changes only the address. */
  method UpdateAddressOnly(name: string, phone: string, email: string, address: string, newAddress: string)
    returns (o: Outcome, row: Contact)
    requires IsPhone(phone) && EmailAccepted(email) && newAddress != []
    ensures o == Updated
    ensures row == Contact(1, name, phone, email, newAddress)
  {
    var book := new ContactBook();
    book.CreateSchema();
    var added := book.AddContact(name, phone, email, address);
    o := book.UpdateContact(added.id, "", "", "", newAddress);
    assert |book.rows| == 1;
    row := book.rows[0];
  }

  /** Deleting the one contact empties the table; deleting it again still reports success. */
  method DeleteTwice(name: string, phone: string) returns (o1: Outcome, o2: Outcome, listed: seq<Contact>)
    requires IsPhone(phone)
    ensures o1 == Deleted && o2 == Deleted && listed == []
  {
    var book := new ContactBook();
    book.CreateSchema();
    var added := book.AddContact(name, phone, "", "");
    assert HasId(book.rows, added.id) by { assert book.rows[0].id == added.id; }
    o1 := book.DeleteContact(added.id);
    o2 := book.DeleteContact(added.id);
    listed := book.ViewContacts();
  }

  /** A fresh book holding John Smith. */
  method JohnOnly() returns (book: ContactBook)
    ensures fresh(book) && book.Valid() && book.hasTable && book.nextId == 2
    ensures book.rows == [Contact(1, "John Smith", "5550001", "", "")]
  {
    book := new ContactBook();
    book.CreateSchema();
    PhoneFromParts(false, "5550001");
    var a := book.AddContact("John Smith", "5550001", "", "");
  }

  /** A fresh book holding John Smith and Ann Lee. */
  method JohnAndAnn() returns (book: ContactBook)
    ensures fresh(book) && book.Valid() && book.hasTable
    ensures book.rows == [Contact(1, "John Smith", "5550001", "", ""), Contact(2, "Ann Lee", "5550002", "", "")]
  {
    book := JohnOnly();
    PhoneFromParts(false, "5550002");
    assert book.rows[0].phone != "5550002";
    var b := book.AddContact("Ann Lee", "5550002", "", "");
  }

  /** Searching "smith" finds John Smith and not Ann Lee; searching "xyz" finds nobody. */
  method SearchByName() returns (smith: seq<Contact>, none: seq<Contact>)
    ensures smith == [Contact(1, "John Smith", "5550001", "", "")]
    ensures none == []
  {
    var book := JohnAndAnn();
    var john, ann := Contact(1, "John Smith", "5550001", "", ""), Contact(2, "Ann Lee", "5550002", "", "");
    assert NoWildcards("smith") && NoWildcards("xyz");
    JohnMatchesSmith();
    AnnMissesSmith();
    NobodyMatchesXyz(john);
    NobodyMatchesXyz(ann);
    smith := book.SearchContact("smith");
    none := book.SearchContact("xyz");
    OnlyJohn(smith, book.rows);
  }

  /** A result drawn at most once from John and Ann that holds John and not Ann is John alone. */
  lemma OnlyJohn(smith: seq<Contact>, rows: seq<Contact>)
    requires rows == [Contact(1, "John Smith", "5550001", "", ""), Contact(2, "Ann Lee", "5550002", "", "")]
    requires multiset(smith) <= multiset(rows)
    requires Contact(1, "John Smith", "5550001", "", "") in smith
    requires Contact(2, "Ann Lee", "5550002", "", "") !in smith
    ensures smith == [Contact(1, "John Smith", "5550001", "", "")]
  {
    var john, ann := rows[0], rows[1];
    assert multiset(rows) == multiset{john, ann};
    assert multiset(smith)[ann] == 0;
    assert multiset(smith) == multiset{john} by {
      forall x ensures multiset(smith)[x] == multiset{john}[x] {
        if x != john && x != ann {
          assert multiset(rows)[x] == 0;
        }
      }
    }
    assert |smith| == 1 by {
      assert |multiset(smith)| == 1;
    }
    assert smith[0] in multiset(smith);
  }

  lemma JohnMatchesSmith()
    ensures KeywordOccursIn(Contact(1, "John Smith", "5550001", "", ""), "smith")
  {
    var h := Lower("John Smith");
    assert h == "john smith";
    assert Lower("smith") == "smith";
    assert IsPrefix("smith", h[5..]);
    assert h[1..][1..][1..][1..][1..] == h[5..];
    assert Contains(h[5..], "smith");
    assert Contains(h[4..], "smith");
    assert Contains(h[3..], "smith");
    assert Contains(h[2..], "smith");
    assert Contains(h[1..], "smith");
  }

  lemma AnnMissesSmith()
    ensures !KeywordOccursIn(Contact(2, "Ann Lee", "5550002", "", ""), "smith")
  {
    assert Lower("smith") == "smith";
    assert Lower("Ann Lee") == "ann lee";
    ContainsNeedsFirst(Lower("Ann Lee"), "smith");
    ContainsNeedsFirst(Lower("5550002"), "smith");
    ContainsNeedsFirst(Lower(""), "smith");
  }

  lemma NobodyMatchesXyz(c: Contact)
    requires c.name == "John Smith" || c.name == "Ann Lee"
    requires c.phone == "5550001" || c.phone == "5550002"
    requires c.email == "" && c.address == ""
    ensures !KeywordOccursIn(c, "xyz")
  {
    assert Lower("xyz") == "xyz";
    assert Lower("John Smith") == "john smith";
    assert Lower("Ann Lee") == "ann lee";
    ContainsNeedsFirst(Lower(c.name), "xyz");
    ContainsNeedsFirst(Lower(c.phone), "xyz");
    ContainsNeedsFirst(Lower(""), "xyz");
  }
}
