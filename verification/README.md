# Library catalogue — a Dafny model

This project models the in-memory library catalogue of `library_system.cpp`:
validated value records (`Author`, `Book`, `Member`, `Loan`) and the `Library`
aggregate that owns three insertion-ordered collections (books, members, loans)
and implements the business rules: membership by ISBN, availability, loaning,
returning, lookup by author and the active-loan count of the summary line.

Modules, one per concern of the source file:

- `StringOrder` (`string_order.dfy`): the lexicographic order that `std::string`'s
  `<` and `>` use. Dates are opaque strings compared this way, and Dafny's own `<`
  on sequences means "proper prefix", so the order is defined explicitly (`Less`)
  and proved to be a strict total order that agrees with the "first differing
  position" definition.
- `Records` (`records.dfy`): the four value records as datatypes. Every check that
  throws `std::invalid_argument` in the source becomes an `Err` of the matching
  `ValidationError`; constructors mirror the source's order of checks (a `Book`
  runs the year check before the price check). Setters return the updated value:
  each record is held by value (a `Book` copies its `Author`; the `Library` copies
  what it is given), so no other holder can observe the update.
- `Ledger` (`ledger.dfy`): what the Library's queries mean, as functions and
  predicates over the collections (`HasIsbn`, `Available`, `BooksBy`,
  `CountActive`, `FirstActiveMatch`), the class invariant "at most one active
  loan per ISBN" (`AtMostOneActive`), and the lemmas that the transitions keep it.
- `LibrarySystem` (`library.dfy`): the `Library` class. Its three vectors are
  `seq` fields the methods reassign; the read-only queries are loops with early
  return or accumulation, each proved against its `Ledger` specification.
  `LoanBook` returns `Result<bool>`: `Ok(false)` for an unknown or unavailable
  ISBN, `Err(DueBeforeStart)` when the loan's own constructor would throw (the
  collection is left unchanged, as `emplace_back` does when construction throws),
  and `Ok(true)` after appending the new active loan.
- `Demo` (`demo.dfy`): the demonstration run of `main`, with each printed value
  replaced by an assertion: every author, book and member passes its constructor;
  the summary line reads 3 books and 2 members with 0, then 2, then 1 active loans;
  the loan list after each phase is stated in full (after the return, HP001
  returned and LOTR001 still out); the second loan of HP001 is refused;
  Rowling's two books come back in order. Two checks go beyond what `main` does: a
  repeated return of HP001 by M001 fails, and an author with no books gets none.

A `Library` only ever holds records that passed their constructors (the C++ types
cannot hold anything else), so its invariant `Valid()` includes every stored
book's and member's own check, and `AddBook`/`AddMember` take valid records.

## Model

| member | source | states |
|---|---|---|
| `StringOrder.Less` | library_system.cpp:103 | the `std::string` order used for `due < start` (:103) and `today > dueDate` (:109); its properties are the lemmas below |
| `StringOrder.LessIff` | library_system.cpp:103 | `Less` (the string `<`) holds exactly when the strings agree up to some position where the first has ended while the second goes on, or has the smaller character |
| `StringOrder.LessAt` | library_system.cpp:103 | a first differing position with the smaller character (or a proper prefix) makes the string less |
| `StringOrder.ProperPrefixIsLess` | library_system.cpp:103 | a proper prefix is less, as with Dafny's prefix order, though `Less` also orders non-prefixes |
| `StringOrder.LessIrreflexive` | library_system.cpp:103 | no date is before itself |
| `StringOrder.LessAsymmetric` | library_system.cpp:103 | two dates are never each before the other |
| `StringOrder.LessTransitive` | library_system.cpp:108-110 | before-before is before |
| `StringOrder.LessTotal` | library_system.cpp:103 | any two dates are equal or ordered one way or the other |
| `Records.Author.SetBirthYear` | library_system.cpp:17-21 | succeeds exactly for years 1850..2025, storing the year and keeping the name; otherwise `InvalidBirthYear` |
| `Records.NewAuthor` | library_system.cpp:11-14 | construction succeeds exactly for birth years 1850..2025 and reads back the given name and year |
| `Records.DefaultAuthor` | library_system.cpp:11 | the constructor with every argument omitted yields the author ("Unknown", 1900) |
| `Records.AuthorDefaultYear` | library_system.cpp:11 | omitting only the birth year gives 1900, which is accepted |
| `Records.Book.SetYear` | library_system.cpp:57-60 | succeeds exactly for years 1500..2025, changing only the year; otherwise `InvalidYear` |
| `Records.Book.SetPrice` | library_system.cpp:61-64 | succeeds exactly for non-negative prices, changing only the price; otherwise `NegativePrice` |
| `Records.NewBook` | library_system.cpp:40-46 | given a constructed (valid) author, succeeds exactly when the year is in 1500..2025 and the price is non-negative; the result is valid and every field reads back unchanged; a bad year is reported before a bad price |
| `Records.DefaultBook` | library_system.cpp:36-39 | the sentinel "Untitled" book is valid, holds the default author and passes the constructor unchanged |
| `Records.NewMember` | library_system.cpp:79-84 | fails exactly for the empty id (`EmptyMemberId`); name and join year are stored unvalidated |
| `Records.DefaultMember` | library_system.cpp:79-81 | the constructor with every argument omitted yields the member ("Unknown", "none", 2000) |
| `Records.MemberDefaultArguments` | library_system.cpp:79-84 | omitting the id gives "none", which is accepted; omitting only the join year gives 2000 and keeps the empty-id check |
| `Records.NewLoan` | library_system.cpp:100-105 | fails (`DueBeforeStart`) exactly when the due date is before the start date; a new loan is active and holds the given fields |
| `Records.NewLoanAcceptsOrderedDates` | library_system.cpp:103-104 | equal dates are accepted; a loan is created exactly when start equals due or is before it |
| `Records.Loan.MarkReturned` | library_system.cpp:106-110 | sets the flag and nothing else; a returned loan is overdue on no day |
| `Records.Loan.IsOverdue` | library_system.cpp:108-110 | not returned and `today` strictly after the due date; never true after `MarkReturned`, and only after the start date (lemmas beside it) |
| `Records.MarkReturnedIdempotent` | library_system.cpp:106 | returning twice equals returning once, and keeps the date check |
| `Records.OverdueImpliesAfterStart` | library_system.cpp:108-110 | a loan that passed the date check is overdue only on days strictly after its start |
| `Ledger.BooksByConcat` | library_system.cpp:151-157 | the author filter distributes over concatenation, so it keeps insertion order and judges each book alone |
| `Ledger.BooksByMembership` | library_system.cpp:151-157 | a book is in the result exactly when it is stored and its author's name is the one asked for |
| `Ledger.BooksByEmpty` | library_system.cpp:151-157 | the result is empty exactly when no stored book is by that author |
| `Ledger.FirstActiveMatch` | library_system.cpp:144-145 | finds the first loan in insertion order with both ids that is still active, and `None` exactly when there is none |
| `Ledger.NoHistoryIsAvailable` | library_system.cpp:131-135 | a book with no loan history is available |
| `Ledger.AvailableIffNotActive` | library_system.cpp:131-135 | an ISBN is available exactly when it is not among the ISBNs out on loan |
| `Ledger.AppendActivePreserves` | library_system.cpp:136-142 | appending an active loan for an available ISBN keeps at most one active loan per ISBN, makes it unavailable and adds one to the active count |
| `Ledger.MarkPreserves` | library_system.cpp:143-150 | marking any loan returned keeps at most one active loan per ISBN and every loan's date order |
| `Ledger.MarkMakesAvailable` | library_system.cpp:143-150 | under the invariant, returning the active loan of an ISBN makes it available again |
| `Ledger.CountActiveMark` | library_system.cpp:143-150 | returning an active loan lowers the active count by exactly one |
| `Ledger.CountIsActiveIsbns` | library_system.cpp:158-160 | under the invariant, the active count equals the number of distinct ISBNs out on loan |
| `Ledger.ReturnClearsMatch` | library_system.cpp:143-150 | under the invariant, after the first match is returned no match is left |
| `LibrarySystem.Library.constructor` | library_system.cpp:118-123 | a new library has no books, members or loans and satisfies the invariant |
| `LibrarySystem.Library.AddBook` | library_system.cpp:124 | appends the (constructed, hence valid) book, changes nothing else and keeps the invariant |
| `LibrarySystem.Library.AddMember` | library_system.cpp:125 | appends the (constructed, hence valid) member, changes nothing else and keeps the invariant |
| `LibrarySystem.Library.HasBook` | library_system.cpp:126-130 | true exactly when some stored book has the ISBN |
| `LibrarySystem.Library.IsBookAvailable` | library_system.cpp:131-135 | true exactly when no stored loan of the ISBN is active |
| `LibrarySystem.Library.LoanBook` | library_system.cpp:136-142 | `Ok(false)` and no change for an unknown or unavailable ISBN; `Err(DueBeforeStart)` and no change for reversed dates; otherwise appends exactly one active loan with the given fields, the ISBN becomes unavailable and the active count grows by one; books and members never change; the invariant is kept |
| `LibrarySystem.Library.ReturnBook` | library_system.cpp:143-150 | true exactly when an active loan of that ISBN to that member exists; then only the first such loan is marked returned, the ISBN is available again and the active count drops by one; otherwise nothing changes; either way no such loan remains, so a repeated call returns false; the invariant is kept |
| `LibrarySystem.Library.FindByAuthor` | library_system.cpp:151-157 | returns the order-preserving filter of the stored books by author name |
| `LibrarySystem.Library.Counts` | library_system.cpp:158-163 | the summary's book and member counts, and the number of active loans, which under the invariant is the number of ISBNs out on loan |
| `Demo.DemoDatesInOrder` | library_system.cpp:186-187 | the demonstration's first two due dates are not before their start dates |
| `Demo.Scenario` | library_system.cpp:171-202 | the demonstration with its own dates: shows they pass the loan date check and runs it |
| `Demo.Run` | library_system.cpp:171-202 | the demonstration as a sequence of the phases below, for any dates under which the first two loans are accepted |
| `Demo.Seed` | library_system.cpp:172-185 | every author, book and member passes its constructor; the seeded library holds the three books in order, two members and no loans |
| `Demo.LoanPhase` | library_system.cpp:186-192 | both first loans succeed, leaving exactly those two active loans and a summary of 3 books, 2 members, 2 active loans; the second loan of HP001 is refused |
| `Demo.ReturnPhase` | library_system.cpp:193-195 | returning HP001 from M001 succeeds; the loan list then holds HP001 returned and LOTR001 active, and the summary reads 3 books, 2 members, 1 active loan; beyond `main`, a repeated return is checked to fail |
| `Demo.FindPhase` | library_system.cpp:197-200 | Rowling's books come back as exactly the two Harry Potter books in insertion order; beyond `main`, an unknown author gets none |

## Left out

- The text produced by the `to_string` formatters and `printLoans`, and all console output of `main`: only the numbers in the summary line are modelled (`Library.Counts`), and the demonstration's printed results (each summary line and the loan list's ISBNs, members and returned flags) become assertions in `Demo`.
- The process-wide `Book::totalBooks` counter and `getTotalBooks`: global diagnostic state whose value depends on C++ copy and move semantics (the defaulted copy and move constructors do not increment it).
- `price` is a `real`, not a `double`: rounding and NaN (which the source's `p < 0` test would let through) are not modelled; only the sign check is.
- `int` fields are unbounded integers; nothing in the source does arithmetic on them, so 32-bit wrap-around never arises.
- `StringOrder.Less` compares characters by code point; `std::string` compares bytes as `unsigned char`. The two agree on ASCII text, which the dates and identifiers are.
- `Records.Author.SetBirthYear`, `Records.Book.SetYear`, `Records.Book.SetPrice`: return the updated record instead of assigning a field in place; the records are always held by value, so no aliasing is lost. A rejected setter leaves the caller's value as it was, as in the source, where the check precedes the assignment.
- Exception propagation: a thrown `std::invalid_argument` is an `Err` value; in the demonstration all inputs are valid, so no failure path of `main` exists to model.
- The getters (`getName`, `getISBN`, `isReturned`, …) are the datatypes' field selectors.
