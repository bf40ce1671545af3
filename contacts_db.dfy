/**
 * The `contacts` table of `contacts.db` and the five operations of the
 * contacts book on it: add, view, search, partial update and delete.
 *
 * The table is held as a sequence of rows plus the AUTOINCREMENT counter.
 * Every statement is atomic: when it fails, the table is left as it was.
 * Where the application prints a message, the model returns an `Outcome`.
 */
module ContactsDb {
  import opened Validation
  import opened SqlLike

  /** A row `(id, name, phone, email, address)` of the `contacts` table. */
  datatype Contact = Contact(id: int, name: string, phone: string, email: string, address: string)

  /** What an operation reports. */
  datatype Outcome =
    | Added(id: int)
    | Updated
    | Deleted
    | InvalidPhone
    | InvalidEmail
    | DuplicatePhone          // the INSERT's IntegrityError, caught by add
    | NothingToUpdate
    | UncaughtIntegrityError  // the UPDATE's IntegrityError, which update does not catch

  datatype Option<T> = None | Some(value: T)

  /**
   * The SET list of the UPDATE that update builds: `Some(v)` for every
   * column it assigns, `None` for every column it leaves alone.
   */
  datatype ContactPatch = ContactPatch(
    name: Option<string>, phone: Option<string>, email: Option<string>, address: Option<string>)

  const NoChanges := ContactPatch(None, None, None, None)

  /**
   * The row after the UPDATE's SET list: the id never changes, every
   * assigned column takes its new value, every other column keeps its
   * value, and the empty SET list leaves the row as it was.
   */
  function ApplyPatch(c: Contact, p: ContactPatch): (r: Contact)
    ensures r.id == c.id
    ensures p == NoChanges ==> r == c
    ensures p.name.Some? ==> r.name == p.name.value
    ensures p.name.None? ==> r.name == c.name
    ensures p.phone.Some? ==> r.phone == p.phone.value
    ensures p.phone.None? ==> r.phone == c.phone
    ensures p.email.Some? ==> r.email == p.email.value
    ensures p.email.None? ==> r.email == c.email
    ensures p.address.Some? ==> r.address == p.address.value
    ensures p.address.None? ==> r.address == c.address
  {
    Contact(
      c.id,
      if p.name.Some? then p.name.value else c.name,
      if p.phone.Some? then p.phone.value else c.phone,
      if p.email.Some? then p.email.value else c.email,
      if p.address.Some? then p.address.value else c.address)
  }

  // ---------------------------------------------------------------------
  // Table constraints and lookups
  // ---------------------------------------------------------------------

  /** `id INTEGER PRIMARY KEY`: no two rows share an id. */
  ghost predicate IdsUnique(rows: seq<Contact>) {
    forall i, j :: 0 <= i < j < |rows| ==> rows[i].id != rows[j].id
  }

  /** `phone TEXT UNIQUE`: no two rows share a phone number. */
  ghost predicate PhonesUnique(rows: seq<Contact>) {
    forall i, j :: 0 <= i < j < |rows| ==> rows[i].phone != rows[j].phone
  }

  ghost predicate HasId(rows: seq<Contact>, id: int) {
    exists k :: 0 <= k < |rows| && rows[k].id == id
  }

  /** Some row other than the one with `id` holds `phone`. */
  ghost predicate PhoneHeldByOther(rows: seq<Contact>, phone: string, id: int) {
    exists k :: 0 <= k < |rows| && rows[k].phone == phone && rows[k].id != id
  }

  /**
   * How the engine finds rows for `WHERE id=?` and for the UNIQUE index on
   * `phone`: the index of the first row satisfying `p`, or -1 when none does.
   */
  function FindFirst(rows: seq<Contact>, p: Contact -> bool): (r: int)
    ensures -1 <= r < |rows|
    ensures r >= 0 ==> p(rows[r])
    ensures r >= 0 ==> forall k :: 0 <= k < r ==> !p(rows[k])
    ensures r == -1 <==> forall k :: 0 <= k < |rows| ==> !p(rows[k])
  {
    if rows == [] then -1
    else if p(rows[0]) then 0
    else
      var r := FindFirst(rows[1..], p);
      assert forall k :: 1 <= k < |rows| ==> rows[k] == rows[1..][k - 1];
      if r < 0 then -1 else r + 1
  }

  /**
   * `DELETE FROM contacts WHERE id=?`: the rows that remain, in their order.
   * None of them has the id.
   */
  function RemoveId(rows: seq<Contact>, id: int): (r: seq<Contact>)
    ensures |r| <= |rows|
    ensures forall c :: c in r ==> c.id != id
  {
    if rows == [] then []
    else if rows[0].id == id then RemoveId(rows[1..], id)
    else [rows[0]] + RemoveId(rows[1..], id)
  }

  /** With unique ids, delete takes out exactly the one row that has the id and keeps the rest in order. */
  lemma {:induction false} RemoveIdAt(rows: seq<Contact>, id: int, k: int)
    requires IdsUnique(rows)
    requires 0 <= k < |rows| && rows[k].id == id
    ensures RemoveId(rows, id) == rows[..k] + rows[k + 1..]
  {
    var tail := rows[1..];
    assert forall j :: 0 <= j < |tail| ==> tail[j] == rows[j + 1];
    if k == 0 {
      assert forall j :: 0 <= j < |tail| ==> tail[j].id != id;
      RemoveIdAbsent(tail, id);
      assert RemoveId(rows, id) == RemoveId(tail, id);
      assert rows[..0] + rows[1..] == tail;
    } else {
      assert rows[0].id != id;
      assert IdsUnique(tail);
      RemoveIdAt(tail, id, k - 1);
      assert RemoveId(rows, id) == [rows[0]] + RemoveId(tail, id);
      assert rows[..k] == [rows[0]] + tail[..k - 1];
      assert rows[k + 1..] == tail[k - 1 + 1..];
    }
  }

  /** The rows that remain after a delete are exactly the rows whose id differs. */
  lemma {:induction false} RemoveIdMembers(rows: seq<Contact>, id: int, c: Contact)
    ensures c in RemoveId(rows, id) <==> c in rows && c.id != id
  {
    if rows != [] {
      RemoveIdMembers(rows[1..], id, c);
      assert rows == [rows[0]] + rows[1..];
    }
  }

  /** Deleting an id that no row has changes nothing. */
  lemma {:induction false} RemoveIdAbsent(rows: seq<Contact>, id: int)
    requires forall k :: 0 <= k < |rows| ==> rows[k].id != id
    ensures RemoveId(rows, id) == rows
  {
    if rows != [] {
      assert forall k :: 0 <= k < |rows[1..]| ==> rows[1..][k] == rows[k + 1];
      RemoveIdAbsent(rows[1..], id);
      assert [rows[0]] + rows[1..] == rows;
    }
  }

  /** Removing one row keeps ids and phones unique. */
  lemma DropKeepsUnique(rows: seq<Contact>, k: int)
    requires 0 <= k < |rows|
    requires IdsUnique(rows) && PhonesUnique(rows)
    ensures IdsUnique(rows[..k] + rows[k + 1..]) && PhonesUnique(rows[..k] + rows[k + 1..])
  {
    var r := rows[..k] + rows[k + 1..];
    assert forall i :: 0 <= i < |r| ==> r[i] == rows[if i < k then i else i + 1];
  }

  /** Replacing one row by a row with the same id and a phone no other row holds keeps ids and phones unique. */
  lemma ReplaceKeepsUnique(rows: seq<Contact>, k: int, c: Contact)
    requires 0 <= k < |rows|
    requires IdsUnique(rows) && PhonesUnique(rows)
    requires c.id == rows[k].id
    requires forall j :: 0 <= j < |rows| && j != k ==> rows[j].phone != c.phone
    ensures IdsUnique(rows[k := c]) && PhonesUnique(rows[k := c])
  {
  }

  // ---------------------------------------------------------------------
  // Keyword search
  // ---------------------------------------------------------------------

  /**
   * The LIKE pattern `f"%{key}%"` for the keyword `key = input().lower()`:
   * the folded keyword between two `%`, which adds no wildcard of its own
   * inside; the empty keyword gives `%%`.
   */
  function SearchPattern(keyword: string): (r: string)
    ensures |r| == |keyword| + 2 && r[0] == '%' && r[|r| - 1] == '%'
    ensures NoWildcards(keyword) ==> NoWildcards(r[1..|r| - 1])
    ensures keyword == [] ==> r == "%%"
  {
    "%" + Lower(keyword) + "%"
  }

  /**
   * `lower(name) LIKE ? OR phone LIKE ? OR lower(email) LIKE ? OR lower(address) LIKE ?`.
   * The pattern `%%` of the empty keyword matches every row.
   */
  predicate RowMatches(c: Contact, pattern: string)
    ensures pattern == "%%" ==> RowMatches(c, pattern)
  {
    PercentMatchesAll(Lower(c.name));
    assert "%%"[1..] == "%";
    Like(Lower(c.name), pattern) || Like(c.phone, pattern) ||
    Like(Lower(c.email), pattern) || Like(Lower(c.address), pattern)
  }

  /** The keyword occurs, ignoring ASCII case, in the name, phone, e-mail or address. */
  predicate KeywordOccursIn(c: Contact, keyword: string) {
    var k := Lower(keyword);
    Contains(Lower(c.name), k) || Contains(Lower(c.phone), k) ||
    Contains(Lower(c.email), k) || Contains(Lower(c.address), k)
  }

  /** The rows the SELECT of search returns, in table order. */
  function SearchRows(rows: seq<Contact>, pattern: string): (r: seq<Contact>)
    ensures forall c :: c in r <==> c in rows && RowMatches(c, pattern)
    ensures multiset(r) <= multiset(rows)
  {
    if rows == [] then []
    else
      assert rows == [rows[0]] + rows[1..];
      if RowMatches(rows[0], pattern) then [rows[0]] + SearchRows(rows[1..], pattern)
      else SearchRows(rows[1..], pattern)
  }

  lemma LowerTwice(s: string)
    ensures Lower(Lower(s)) == Lower(s)
  {
  }

  /**
   * For a keyword without `%` or `_`, a row matches the search exactly when
   * the keyword occurs in one of its four text columns, ignoring ASCII case.
   */
  lemma SearchMeaning(c: Contact, keyword: string)
    requires NoWildcards(keyword)
    ensures RowMatches(c, SearchPattern(keyword)) <==> KeywordOccursIn(c, keyword)
  {
    var k := Lower(keyword);
    assert NoWildcards(k);
    LowerTwice(keyword);
    InfixPattern(Lower(c.name), k);
    InfixPattern(c.phone, k);
    InfixPattern(Lower(c.email), k);
    InfixPattern(Lower(c.address), k);
    LowerTwice(c.name);
    LowerTwice(c.email);
    LowerTwice(c.address);
  }

  // ---------------------------------------------------------------------
  // The database
  // ---------------------------------------------------------------------

  /**
   * The contents of `contacts.db`: whether the `contacts` table exists, its
   * rows, and the AUTOINCREMENT counter (one more than the largest id ever
   * assigned). `issued` records every id ever assigned.
   */
  class ContactBook {
    var hasTable: bool
    var rows: seq<Contact>
    var nextId: int
    ghost var issued: set<int>

    ghost predicate Valid()
      reads this
      ensures Valid() ==> forall k :: 0 <= k < |rows| ==> 1 <= rows[k].id < nextId
      ensures Valid() && !hasTable ==> rows == []
    {
      && nextId >= 1
      && (!hasTable ==> rows == [] && nextId == 1 && issued == {})
      && (forall x :: x in issued ==> 1 <= x < nextId)
      && (forall k :: 0 <= k < |rows| ==> rows[k].id in issued)
      && IdsUnique(rows)
      && PhonesUnique(rows)
      && (forall k :: 0 <= k < |rows| ==> IsPhone(rows[k].phone) && EmailAccepted(rows[k].email))
    }

    /** A database file without the `contacts` table. */
    constructor ()
      ensures Valid() && !hasTable
      ensures rows == [] && nextId == 1 && issued == {}
    {
      hasTable, rows, nextId := false, [], 1;
      issued := {};
    }

    /** `CREATE TABLE IF NOT EXISTS contacts (...)`, as `connect_db` runs it at start-up. */
    method CreateSchema()
      requires Valid()
      modifies this
      ensures Valid() && hasTable
      ensures old(hasTable) ==> rows == old(rows) && nextId == old(nextId) && issued == old(issued)
      ensures !old(hasTable) ==> rows == [] && nextId == 1 && issued == {}
    {
      if !hasTable {
        hasTable, rows, nextId := true, [], 1;
        issued := {};
      }
    }

    /** `add_contact`: validate, then INSERT, catching the UNIQUE violation on `phone`. */
    method AddContact(name: string, phone: string, email: string, address: string) returns (o: Outcome)
      requires Valid() && hasTable
      modifies this
      ensures Valid() && hasTable
      ensures o == InvalidPhone <==> !IsPhone(phone)
      ensures o == InvalidEmail <==> IsPhone(phone) && !EmailAccepted(email)
      ensures o == DuplicatePhone <==> (IsPhone(phone) && EmailAccepted(email) &&
                                        exists k :: 0 <= k < |old(rows)| && old(rows)[k].phone == phone)
      ensures o.Added? <==> (IsPhone(phone) && EmailAccepted(email) &&
                             forall k :: 0 <= k < |old(rows)| ==> old(rows)[k].phone != phone)
      ensures !o.Added? ==> rows == old(rows) && nextId == old(nextId) && issued == old(issued)
      ensures o.Added? ==>
        && o.id == old(nextId)
        && rows == old(rows) + [Contact(o.id, name, phone, email, address)]
        && (forall x :: x in old(issued) ==> x < o.id)
        && issued == old(issued) + {o.id}
        && nextId == o.id + 1
    {
      if !IsPhone(phone) {
        return InvalidPhone;
      }
      if email != [] && !IsEmail(email) {
        return InvalidEmail;
      }
      // INSERT INTO contacts (name, phone, email, address) VALUES (?, ?, ?, ?)
      if FindFirst(rows, (c: Contact) => c.phone == phone) >= 0 {
        return DuplicatePhone;
      }
      var id := nextId;
      rows := rows + [Contact(id, name, phone, email, address)];
      nextId := nextId + 1;
      issued := issued + {id};
      o := Added(id);
    }

    /** `view_contacts`: `SELECT * FROM contacts`, with no ORDER BY. */
    method ViewContacts() returns (r: seq<Contact>)
      requires Valid() && hasTable
      ensures multiset(r) == multiset(rows)
    {
      r := rows;
    }

    /** `search_contact`: every row one of whose columns is LIKE `%keyword%`. */
    method SearchContact(keyword: string) returns (r: seq<Contact>)
      requires Valid() && hasTable
      ensures forall c :: c in r <==> c in rows && RowMatches(c, SearchPattern(keyword))
      ensures multiset(r) <= multiset(rows)
      ensures NoWildcards(keyword) ==> forall c :: c in r <==> c in rows && KeywordOccursIn(c, keyword)
    {
      r := SearchRows(rows, SearchPattern(keyword));
      if NoWildcards(keyword) {
        forall c | c in rows ensures RowMatches(c, SearchPattern(keyword)) <==> KeywordOccursIn(c, keyword) {
          SearchMeaning(c, keyword);
        }
      }
    }

    /**
     * `update_contact`: collect an assignment for every non-empty input,
     * validating phone and e-mail on the way, then run
     * `UPDATE contacts SET ... WHERE id=?`. A missing id updates no row and
     * is still reported as success; a phone held by another row raises
     * the UNIQUE violation, which is not caught.
     */
    method UpdateContact(id: int, name: string, phone: string, email: string, address: string)
      returns (o: Outcome)
      requires Valid() && hasTable
      modifies this
      ensures Valid() && hasTable && nextId == old(nextId) && issued == old(issued)
      ensures o == InvalidPhone <==> phone != [] && !IsPhone(phone)
      ensures o == InvalidEmail <==> (phone == [] || IsPhone(phone)) && !EmailAccepted(email)
      ensures o == NothingToUpdate <==> name == [] && phone == [] && email == [] && address == []
      ensures o == UncaughtIntegrityError <==>
        (phone != [] && IsPhone(phone) && EmailAccepted(email) &&
         HasId(old(rows), id) && PhoneHeldByOther(old(rows), phone, id))
      ensures o == Updated <==>
        ((phone == [] || IsPhone(phone)) && EmailAccepted(email) &&
         (name != [] || phone != [] || email != [] || address != []) &&
         !(phone != [] && HasId(old(rows), id) && PhoneHeldByOther(old(rows), phone, id)))
      ensures o != Updated ==> rows == old(rows)
      ensures o == Updated ==>
        && |rows| == |old(rows)|
        && forall k :: 0 <= k < |rows| ==>
          var was, hit := old(rows)[k], old(rows)[k].id == id;
          && rows[k].id == was.id
          && rows[k].name == (if hit && name != [] then name else was.name)
          && rows[k].phone == (if hit && phone != [] then phone else was.phone)
          && rows[k].email == (if hit && email != [] then email else was.email)
          && rows[k].address == (if hit && address != [] then address else was.address)
    {
      var patch := NoChanges;
      if name != [] {
        patch := patch.(name := Some(name));
      }
      if phone != [] {
        if !IsPhone(phone) {
          return InvalidPhone;
        }
        patch := patch.(phone := Some(phone));
      }
      if email != [] {
        if !IsEmail(email) {
          return InvalidEmail;
        }
        patch := patch.(email := Some(email));
      }
      if address != [] {
        patch := patch.(address := Some(address));
      }
      if patch == NoChanges {
        return NothingToUpdate;
      }
      assert patch.name == (if name != [] then Some(name) else None);
      assert patch.phone == (if phone != [] then Some(phone) else None);
      assert patch.email == (if email != [] then Some(email) else None);
      assert patch.address == (if address != [] then Some(address) else None);
      o := RunUpdate(id, patch);
    }

    /**
     * `conn.execute("UPDATE contacts SET ... WHERE id=?", values)`: assign the
     * patched columns of the row with `id`, if there is one. A phone that
     * another row holds violates UNIQUE and the statement has no effect.
     */
    method RunUpdate(id: int, patch: ContactPatch) returns (o: Outcome)
      requires Valid() && hasTable
      requires patch.phone.Some? ==> IsPhone(patch.phone.value)
      requires patch.email.Some? ==> EmailAccepted(patch.email.value)
      modifies this
      ensures Valid() && hasTable && nextId == old(nextId) && issued == old(issued)
      ensures o == Updated || o == UncaughtIntegrityError
      ensures o == UncaughtIntegrityError <==>
        (patch.phone.Some? && HasId(old(rows), id) && PhoneHeldByOther(old(rows), patch.phone.value, id))
      ensures o == UncaughtIntegrityError ==> rows == old(rows)
      ensures o == Updated ==>
        && |rows| == |old(rows)|
        && forall k :: 0 <= k < |rows| ==>
          rows[k] == if old(rows)[k].id == id then ApplyPatch(old(rows)[k], patch) else old(rows)[k]
    {
      var k := FindFirst(rows, (c: Contact) => c.id == id);
      if k < 0 {
        return Updated;
      }
      if patch.phone.Some? {
        var p := FindFirst(rows, (c: Contact) => c.phone == patch.phone.value);
        if p >= 0 && p != k {
          assert rows[p].id != id by {
            if p < k { } else { assert rows[k].id != rows[p].id; }
          }
          return UncaughtIntegrityError;
        }
      }
      var updated := ApplyPatch(rows[k], patch);
      forall j | 0 <= j < |rows| && j != k ensures rows[j].phone != updated.phone && rows[j].id != id {
        if j < k { } else { assert rows[k].id != rows[j].id && rows[k].phone != rows[j].phone; }
      }
      ReplaceKeepsUnique(rows, k, updated);
      rows := rows[k := updated];
      o := Updated;
    }

    /** `delete_contact`: `DELETE FROM contacts WHERE id=?`, reported as success whether or not a row had the id. */
    method DeleteContact(id: int) returns (o: Outcome)
      requires Valid() && hasTable
      modifies this
      ensures Valid() && hasTable && nextId == old(nextId) && issued == old(issued)
      ensures o == Deleted
      ensures rows == RemoveId(old(rows), id)
      ensures forall c :: c in rows <==> c in old(rows) && c.id != id
      ensures HasId(old(rows), id) ==> |rows| == |old(rows)| - 1
      ensures !HasId(old(rows), id) ==> rows == old(rows)
    {
      var k := FindFirst(rows, (c: Contact) => c.id == id);
      if k >= 0 {
        RemoveIdAt(rows, id, k);
        DropKeepsUnique(rows, k);
      } else {
        RemoveIdAbsent(rows, id);
      }
      forall c ensures c in RemoveId(rows, id) <==> c in rows && c.id != id {
        RemoveIdMembers(rows, id, c);
      }
      rows := RemoveId(rows, id);
      o := Deleted;
    }
  }
}
