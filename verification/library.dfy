/** The Library aggregate: three insertion-ordered collections that it alone
    owns, and the business rules over them. */
module LibrarySystem {
  import opened StringOrder
  import opened Records
  import opened Ledger

  class Library {
    var books: seq<Book>
    var members: seq<Member>
    var loans: seq<Loan>

    /** Every stored record passed its constructor's checks, and at most one
        loan per ISBN is active. */
    ghost predicate Valid()
      reads this
    {
      (forall i :: 0 <= i < |books| ==> books[i].Valid())
      && (forall i :: 0 <= i < |members| ==> members[i].Valid())
      && AtMostOneActive(loans) && AllDatesOrdered(loans)
    }

    /** An empty library. */
    constructor ()
      ensures Valid()
      ensures books == [] && members == [] && loans == []
    {
      books, members, loans := [], [], [];
    }

    /** Appends a copy of `b`, a constructed (hence valid) book; no uniqueness check. */
    method AddBook(b: Book)
      requires Valid() && b.Valid()
      modifies this
      ensures Valid()
      ensures books == old(books) + [b]
      ensures members == old(members) && loans == old(loans)
    {
      books := books + [b];
    }

    /** Appends a copy of `m`, a constructed (hence valid) member; no uniqueness check. */
    method AddMember(m: Member)
      requires Valid() && m.Valid()
      modifies this
      ensures Valid()
      ensures members == old(members) + [m]
      ensures books == old(books) && loans == old(loans)
    {
      members := members + [m];
    }

    /** Linear scan for a book with this ISBN. */
    method HasBook(isbn: string) returns (found: bool)
      ensures found <==> HasIsbn(books, isbn)
    {
      for i := 0 to |books|
        invariant forall j :: 0 <= j < i ==> books[j].isbn != isbn
      {
        if books[i].isbn == isbn {
          return true;
        }
      }
      return false;
    }

    /** Linear scan for an active loan of this ISBN. */
    method IsBookAvailable(isbn: string) returns (available: bool)
      ensures available <==> Available(loans, isbn)
    {
      for i := 0 to |loans|
        invariant forall j :: 0 <= j < i && loans[j].isbn == isbn ==> loans[j].returned
      {
        if loans[i].isbn == isbn && !loans[i].returned {
          return false;
        }
      }
      return true;
    }

    /** Refuses (`Ok(false)`) an unknown or unavailable ISBN without touching
        anything. Otherwise the new loan is constructed, which fails with
        `DueBeforeStart` when `due < start`; on success it is appended active,
        and the ISBN is no longer available. Books and members never change. */
    method LoanBook(isbn: string, memberId: string, start: string, due: string) returns (r: Result<bool>)
      requires Valid()
      modifies this
      ensures Valid()
      ensures books == old(books) && members == old(members)
      ensures r == if !HasIsbn(books, isbn) || !Available(old(loans), isbn) then Ok(false)
                   else if Less(due, start) then Err(DueBeforeStart)
                   else Ok(true)
      ensures r != Ok(true) ==> loans == old(loans)
      ensures r == Ok(true) ==> loans == old(loans) + [Loan(isbn, memberId, start, due, false)]
      ensures r == Ok(true) ==> !Available(loans, isbn) && CountActive(loans) == CountActive(old(loans)) + 1
    {
      var known := HasBook(isbn);
      if !known {
        return Ok(false);
      }
      var available := IsBookAvailable(isbn);
      if !available {
        return Ok(false);
      }
      match NewLoan(isbn, memberId, start, due)
      case Err(e) =>
        return Err(e);
      case Ok(l) =>
        AppendActivePreserves(loans, l);
        loans := loans + [l];
        return Ok(true);
    }

    /** Marks returned the first loan, in insertion order, of this ISBN to this
        member that is still active, and nothing else; `false` and no change
        when there is none. Afterwards no such loan is left, so repeating the
        call returns `false`. */
    method ReturnBook(isbn: string, memberId: string) returns (r: bool)
      requires Valid()
      modifies this
      ensures Valid()
      ensures books == old(books) && members == old(members)
      ensures r <==> FirstActiveMatch(old(loans), isbn, memberId).Some?
      ensures !r ==> loans == old(loans)
      ensures r ==> var k := FirstActiveMatch(old(loans), isbn, memberId).value;
                    loans == old(loans)[k := old(loans)[k].MarkReturned()]
      ensures r ==> Available(loans, isbn) && CountActive(loans) + 1 == CountActive(old(loans))
      ensures FirstActiveMatch(loans, isbn, memberId) == None
    {
      for i := 0 to |loans|
        invariant forall j :: 0 <= j < i ==> !Matches(loans[j], isbn, memberId)
      {
        if Matches(loans[i], isbn, memberId) {
          MarkPreserves(loans, i);
          MarkMakesAvailable(loans, i);
          CountActiveMark(loans, i);
          ReturnClearsMatch(loans, isbn, memberId, i);
          loans := loans[i := loans[i].MarkReturned()];
          return true;
        }
      }
      return false;
    }

    /** The stored books by `name`, in insertion order. */
    method FindByAuthor(name: string) returns (result: seq<Book>)
      ensures result == BooksBy(books, name)
    {
      result := [];
      for i := 0 to |books|
        invariant result == BooksBy(books[..i], name)
      {
        assert books[..i + 1][..i] == books[..i];
        if books[i].author.name == name {
          result := result + [books[i]];
        }
      }
      assert books[..|books|] == books;
    }

    /** The three numbers of the summary line: books, members, active loans. */
    method Counts() returns (bookCount: nat, memberCount: nat, active: nat)
      ensures bookCount == |books| && memberCount == |members|
      ensures active == CountActive(loans)
      ensures Valid() ==> active == |ActiveIsbns(loans)|
    {
      active := 0;
      for i := 0 to |loans|
        invariant active == CountActive(loans[..i])
      {
        assert loans[..i + 1][..i] == loans[..i];
        if !loans[i].returned {
          active := active + 1;
        }
      }
      assert loans[..|loans|] == loans;
      bookCount, memberCount := |books|, |members|;
      if Valid() {
        CountIsActiveIsbns(loans);
      }
    }
  }
}
