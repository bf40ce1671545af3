# Contacts book: validation and the contacts table

This project models the core of a single-file contacts book that keeps its
records in an SQLite table. It covers two parts of `contacts_app.py`.

The first part is the field validators. These are the phone check
`^\+?\d{7,15}$` and the e-mail check `[^@]+@[^@]+\.[^@]+`, both applied with
`re.match`. They live in module `Validation`. Each regular expression is
written as an explicit matcher that accepts exactly the strings `re.match`
accepts; its steps differ from those of Python's backtracking engine. Each
matcher is then proved equal to a declarative description of the strings
it accepts.

The second part is the `contacts` table of `contacts.db` and the five
operations on it: add, view, search, partial update and delete. They live in
module `ContactsDb`. The table is a class `ContactBook` with these fields:

- `hasTable`: whether the table has been created yet;
- `rows`: the rows, each `(id, name, phone, email, address)`;
- `nextId`: the AUTOINCREMENT counter;
- `issued`: a ghost set of every id ever assigned.

Its invariant `Valid()` states what the schema promises and the operations
keep:

- ids are unique;
- phones are unique;
- every id ever assigned is below `nextId`;
- every stored phone passed the phone check;
- every stored e-mail is empty or passed the e-mail check.

Every operation returns an `Outcome` or the rows instead of printing them. A
statement that fails leaves the table as it was.

Module `SqlLike` models SQLite's `lower()` and `LIKE`, which the search uses.
It proves that the pattern `%key%` means "contains `key`, ignoring ASCII
case" whenever `key` holds no wildcard. Module `Scenarios` calls several
operations in a row on a fresh database; what it ensures follows from the
operations' contracts alone.

The model follows the code, also where it departs from what the application is
meant to do:

- Update and delete on an id that no row has leave the table unchanged and
  still report success (`Updated`, `Deleted`). The code does not look at
  the affected-row count.
- An update whose new phone belongs to another row raises SQLite's
  IntegrityError, and `update_contact` does not catch it. The model returns
  `UncaughtIntegrityError` with the table unchanged.
- `view_contacts` has no `ORDER BY`. `ViewContacts` promises every stored
  row exactly once (equal multisets), not an order.
- The e-mail pattern has no end anchor, and the character after the dot must
  not be `@`. The model states exactly that, not "one or more characters
  after the dot".
- A name is not checked for being empty. `NOT NULL` only excludes a
  missing value, and `input()` always yields a string.
- An empty e-mail or address is stored as the empty string, not as NULL.

## Model

| member | source | states |
|---|---|---|
| Validation.DigitRunIff | contacts_app.py:32 | `\d{lo,hi}$` accepts a string iff it is all digits and its length is between lo and hi |
| Validation.PhoneIff | contacts_app.py:32 | the phone check accepts s iff s is 7–15 digits, or a single `+` followed by 7–15 digits, and nothing else |
| Validation.IsPhone | contacts_app.py:32 | `re.match(r"^\+?\d{7,15}$", s)`: a passing phone is 7 to 16 characters long and ends in a digit |
| Validation.PhoneFromParts | contacts_app.py:99 | every optional `+` followed by 7–15 digits passes the phone check used by add and update |
| Validation.ShortPhoneRejected | contacts_app.py:32 | "12345" is rejected |
| Validation.PlusPhoneAccepted | contacts_app.py:32 | "+12345678" is accepted |
| Validation.DomainIff | contacts_app.py:36 | `[^@]+\.[^@]+` matches a prefix iff there is a dot with an `@`-free non-empty run before it and a non-`@` character after it |
| Validation.LocalIff | contacts_app.py:36 | `[^@]+@…` matches iff the first `@` comes after a non-empty `@`-free run and the domain part matches after it |
| Validation.EmailIff | contacts_app.py:36 | the e-mail check accepts s iff `s = a + "@" + b + "." + c + rest` with a, b, c non-empty and `@`-free (both directions) |
| Validation.EmailFromParts | contacts_app.py:105 | any such `a@b.c` followed by arbitrary text passes: trailing text is never inspected |
| Validation.IsEmail | contacts_app.py:36 | `re.match(r"[^@]+@[^@]+\.[^@]+", s)`: a passing address holds an `@` and at least five characters |
| Validation.EmailAccepted | contacts_app.py:36 | `if email and not re.match(...)` passes: an empty e-mail is accepted, and an accepted non-empty e-mail holds an `@` and at least five characters |
| Validation.EmailShortest | contacts_app.py:36 | the e-mail pattern never matches a string without `@` or shorter than five characters |
| Validation.NoAtRejected | contacts_app.py:36 | a string without `@` never passes the e-mail check |
| Validation.EmailExamples | contacts_app.py:36 | "not-an-email" is rejected, and an empty e-mail skips the check |
| Validation.EmailAcceptedExample | contacts_app.py:36 | "ann@example.com" passes the e-mail check |
| SqlLike.Lower | contacts_app.py:69 | SQLite's `lower()` keeps the length, leaves no ASCII capital and changes no other character |
| SqlLike.Like | contacts_app.py:69-70 | `LIKE` with `%` and `_` wildcards; a pattern without wildcards matches s iff it equals s up to ASCII case (both directions) |
| SqlLike.PercentMatchesAll | contacts_app.py:70 | the LIKE pattern `%` matches every string |
| SqlLike.PrefixPattern | contacts_app.py:69-70 | a wildcard-free q followed by `%` matches s iff lower(q) is a prefix of lower(s) |
| SqlLike.InfixPattern | contacts_app.py:69-70 | a wildcard-free q in `%q%` matches s iff lower(q) occurs in lower(s) |
| ContactsDb.FindFirst | contacts_app.py:14-16 | the lookup by primary key `id` or by the UNIQUE `phone` returns the first row that has the key, or reports that no row has it |
| ContactsDb.ApplyPatch | contacts_app.py:93-118 | the SET list of the UPDATE never changes the id; each assigned column takes its new value and each other column keeps its value, column by column; the empty SET list leaves the row unchanged |
| ContactsDb.RemoveId | contacts_app.py:130 | `DELETE … WHERE id=?` leaves no row with the id and never adds a row |
| ContactsDb.RemoveIdMembers | contacts_app.py:130 | after `DELETE … WHERE id=?` a row remains iff it was there and has another id |
| ContactsDb.RemoveIdAt | contacts_app.py:130 | with unique ids, delete removes exactly the one row with the id and keeps the others in order |
| ContactsDb.RemoveIdAbsent | contacts_app.py:130 | deleting an id no row has leaves the rows unchanged |
| ContactsDb.SearchPattern | contacts_app.py:66-70 | the pattern is the folded keyword between two `%`: two characters longer, no wildcard added inside, and `%%` for the empty keyword |
| ContactsDb.RowMatches | contacts_app.py:69 | the WHERE clause of search over the four columns; the pattern `%%` of an empty keyword matches every row |
| ContactsDb.SearchRows | contacts_app.py:67-72 | the SELECT returns exactly the rows one of whose four columns is LIKE the pattern, each at most once |
| ContactsDb.SearchMeaning | contacts_app.py:66-70 | for a keyword without `%` or `_`, a row matches iff the keyword occurs, ignoring ASCII case, in name, phone, email or address |
| ContactsDb.ContactBook.Valid | contacts_app.py:13-19 | the table invariant (unique ids and phones, validated phones and e-mails, AUTOINCREMENT counter above every issued id); it implies every stored id lies in 1 .. nextId-1 and that no row exists before the table |
| ContactsDb.ContactBook.constructor | contacts_app.py:8 | a database file without the contacts table: no rows, counter at 1 |
| ContactsDb.ContactBook.CreateSchema | contacts_app.py:13-20 | CREATE TABLE IF NOT EXISTS creates an empty table once; on an existing table it keeps every row and the counter |
| ContactsDb.ContactBook.AddContact | contacts_app.py:25-46 | invalid phone, invalid non-empty e-mail and duplicate phone each return their own outcome and write nothing; otherwise exactly one row with the inputs is appended, its id above every id ever issued; phones stay unique |
| ContactsDb.ContactBook.ViewContacts | contacts_app.py:50-61 | returns every stored row exactly once, in no promised order |
| ContactsDb.ContactBook.SearchContact | contacts_app.py:65-80 | returns exactly the stored rows that match `%lower(key)%`, each at most once; for a wildcard-free key, exactly the rows containing the key |
| ContactsDb.ContactBook.UpdateContact | contacts_app.py:84-122 | validation precedes any write; an invalid phone or e-mail, all-empty inputs, or a phone held by another row leave the table unchanged; otherwise only the supplied non-empty fields of the row with the id change; a missing id changes nothing and still reports success |
| ContactsDb.ContactBook.RunUpdate | contacts_app.py:118-121 | the UPDATE assigns the patched columns of the row with the id, fails without effect when another row holds the new phone, and touches no other row |
| ContactsDb.ContactBook.DeleteContact | contacts_app.py:126-132 | removes exactly the rows with the id (at most one), keeps all others, and always reports success |
| Scenarios.AddThenView | contacts_app.py:25-61 | a valid contact added to a fresh book is listed with its own fields and id 1 |
| Scenarios.SamePhoneTwice | contacts_app.py:40-46 | a second add with the same phone is refused and one row with that phone remains |
| Scenarios.RestartKeepsRows | contacts_app.py:13-20 | running the schema creation again keeps the stored rows |
| Scenarios.UpdateAddressOnly | contacts_app.py:84-122 | an update supplying only the address changes only the address |
| Scenarios.DeleteTwice | contacts_app.py:126-132 | deleting a contact removes it; deleting it again still reports success |
| Scenarios.SearchByName | contacts_app.py:65-80 | "smith" returns exactly John Smith, once, and not Ann Lee; "xyz" returns nothing |

## Left out

- The interactive menu (`menu`, contacts_app.py:136-162), every `input()` prompt and every printed message are terminal I/O. Operations take their inputs as arguments and return an `Outcome` or the rows instead.
- An IntegrityError in `update_contact` (contacts_app.py:120) is not caught there, so it escapes `menu` (contacts_app.py:155) and ends the program. The model returns `UncaughtIntegrityError` with the table unchanged, and the book stays usable; program termination is not modelled.
- `update_contact` and `delete_contact` first call `view_contacts` only to print the listing, which has no effect on the table.
- `sqlite3.connect`, `commit` and `close` and the file itself are storage mechanics. The model keeps the table in memory and treats each statement as atomic. Disk and I/O failures of the store are not modelled.
- The SQL text that `update_contact` builds with `+=` and `rstrip(", ")` is not modelled. The model keeps its meaning: the set of column assignments, as a `ContactPatch`.
- The contact id is typed as text and converted by SQLite's type affinity. The model takes an integer id; a text that does not convert selects no row, just like an absent id.
- Python's `str.lower()` folds all of Unicode, but SQLite's `lower()` and `LIKE` fold ASCII only. The model folds ASCII letters on both sides.
- SearchContact: `%` and `_` in the keyword are modelled as the wildcards they are. The substring meaning is proved only for keywords without them.
- Python's `\d` also accepts non-ASCII decimal digits; the model accepts `0`–`9` only.
- The regex `$` also matches before one trailing newline. `input()` never returns one, so the model reads `$` as the end of the string.
- The 64-bit rowid limit, at which AUTOINCREMENT fails with SQLITE_FULL, is not modelled: ids are unbounded integers.
- The model starts from a database file without the table. A file whose rows were written by other means, and may break the validation invariants, is not modelled.
