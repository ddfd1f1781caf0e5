/** What the Library's queries and transitions mean, stated over its three
    insertion-ordered collections, and the facts about them that the Library's
    methods rely on. */
module Ledger {
  import opened Records

  datatype Option<T> = None | Some(value: T)

  // ---------------------------------------------------------------- books

  /** Some stored book carries this ISBN. */
  ghost predicate HasIsbn(books: seq<Book>, isbn: string)
  {
    exists i :: 0 <= i < |books| && books[i].isbn == isbn
  }

  /** The stored books whose author's name is `name`, in insertion order. */
  function BooksBy(books: seq<Book>, name: string): seq<Book>
  {
    if books == [] then []
    else BooksBy(books[..|books| - 1], name)
         + (if books[|books| - 1].author.name == name then [books[|books| - 1]] else [])
  }

  /** Filtering commutes with concatenation: the relative order of the books
      is kept, and each book is judged on its own. */
  lemma {:induction false} BooksByConcat(a: seq<Book>, b: seq<Book>, name: string)
    ensures BooksBy(a + b, name) == BooksBy(a, name) + BooksBy(b, name)
  {
    if b != [] {
      var last := b[|b| - 1];
      assert (a + b)[..|a + b| - 1] == a + b[..|b| - 1];
      BooksByConcat(a, b[..|b| - 1], name);
      assert (a + b)[|a + b| - 1] == last;
    } else {
      assert a + b == a;
    }
  }

  /** A book is in the result exactly when it is stored and written by `name`. */
  lemma {:induction false} BooksByMembership(books: seq<Book>, name: string, b: Book)
    ensures b in BooksBy(books, name) <==> b in books && b.author.name == name
  {
    if books != [] {
      var prefix := books[..|books| - 1];
      BooksByMembership(prefix, name, b);
      assert books == prefix + [books[|books| - 1]];
    }
  }

  /** The result is empty exactly when no stored book is by `name`. */
  lemma BooksByEmpty(books: seq<Book>, name: string)
    ensures BooksBy(books, name) == [] <==> forall i :: 0 <= i < |books| ==> books[i].author.name != name
  {
  }

  // ---------------------------------------------------------------- loans

  /** No stored loan of this ISBN is still active. */
  ghost predicate Available(loans: seq<Loan>, isbn: string)
  {
    forall i :: 0 <= i < |loans| && loans[i].isbn == isbn ==> loans[i].returned
  }

  /** The Library's invariant: for every ISBN, at most one loan is active. */
  ghost predicate AtMostOneActive(loans: seq<Loan>)
  {
    forall i, j ::
      (0 <= i < |loans| && 0 <= j < |loans| && loans[i].isbn == loans[j].isbn
       && !loans[i].returned && !loans[j].returned) ==> i == j
  }

  /** Every stored loan passed the constructor's date check. */
  ghost predicate AllDatesOrdered(loans: seq<Loan>)
  {
    forall i :: 0 <= i < |loans| ==> loans[i].Valid()
  }

  /** The number of active loans. */
  function CountActive(loans: seq<Loan>): nat
  {
    if loans == [] then 0
    else CountActive(loans[..|loans| - 1]) + (if loans[|loans| - 1].returned then 0 else 1)
  }

  /** The ISBNs that are currently out on loan. */
  ghost function ActiveIsbns(loans: seq<Loan>): set<string>
  {
    set i | 0 <= i < |loans| && !loans[i].returned :: loans[i].isbn
  }

  /** The loan `returnBook(isbn, memberId)` looks for. */
  predicate Matches(l: Loan, isbn: string, memberId: string)
  {
    l.isbn == isbn && l.memberId == memberId && !l.returned
  }

  /** The position of the first matching loan in insertion order, if any. */
  function FirstActiveMatch(loans: seq<Loan>, isbn: string, memberId: string): (r: Option<nat>)
    ensures r.None? <==> forall j :: 0 <= j < |loans| ==> !Matches(loans[j], isbn, memberId)
    ensures r.Some? ==> r.value < |loans| && Matches(loans[r.value], isbn, memberId)
    ensures r.Some? ==> forall j :: 0 <= j < r.value ==> !Matches(loans[j], isbn, memberId)
  {
    if loans == [] then None
    else if Matches(loans[0], isbn, memberId) then Some(0)
    else match FirstActiveMatch(loans[1..], isbn, memberId)
      case None => None
      case Some(k) => Some(k + 1)
  }

  /** A book that has never been loaned is available. */
  lemma NoHistoryIsAvailable(loans: seq<Loan>, isbn: string)
    requires forall i :: 0 <= i < |loans| ==> loans[i].isbn != isbn
    ensures Available(loans, isbn)
  {
  }

  /** An ISBN is available exactly when it is not among the active ones. */
  lemma AvailableIffNotActive(loans: seq<Loan>, isbn: string)
    ensures Available(loans, isbn) <==> isbn !in ActiveIsbns(loans)
  {
  }

  /** Appending an active loan for an available ISBN keeps the invariant and
      makes that ISBN unavailable. */
  lemma AppendActivePreserves(loans: seq<Loan>, l: Loan)
    requires AtMostOneActive(loans) && Available(loans, l.isbn) && !l.returned
    ensures AtMostOneActive(loans + [l])
    ensures !Available(loans + [l], l.isbn)
    ensures CountActive(loans + [l]) == CountActive(loans) + 1
  {
    var s := loans + [l];
    assert s[..|s| - 1] == loans;
    assert s[|s| - 1] == l;
  }

  /** Marking any loan returned keeps the invariant. */
  lemma MarkPreserves(loans: seq<Loan>, k: nat)
    requires AtMostOneActive(loans) && AllDatesOrdered(loans) && k < |loans|
    ensures AtMostOneActive(loans[k := loans[k].MarkReturned()])
    ensures AllDatesOrdered(loans[k := loans[k].MarkReturned()])
  {
  }

  /** Returning the active loan of an ISBN makes that ISBN available again. */
  lemma MarkMakesAvailable(loans: seq<Loan>, k: nat)
    requires AtMostOneActive(loans) && k < |loans| && !loans[k].returned
    ensures Available(loans[k := loans[k].MarkReturned()], loans[k].isbn)
  {
  }

  /** Returning an active loan lowers the active count by exactly one. */
  lemma {:induction false} CountActiveMark(loans: seq<Loan>, k: nat)
    requires k < |loans| && !loans[k].returned
    ensures CountActive(loans[k := loans[k].MarkReturned()]) + 1 == CountActive(loans)
  {
    var s := loans[k := loans[k].MarkReturned()];
    var n := |loans| - 1;
    if k == n {
      assert s[..n] == loans[..n];
    } else {
      assert s[..n] == loans[..n][k := loans[k].MarkReturned()];
      CountActiveMark(loans[..n], k);
    }
  }

  /** Under the invariant, the active count is the number of ISBNs out on loan. */
  lemma {:induction false} CountIsActiveIsbns(loans: seq<Loan>)
    requires AtMostOneActive(loans)
    ensures CountActive(loans) == |ActiveIsbns(loans)|
  {
    if loans != [] {
      var n := |loans| - 1;
      var prefix, last := loans[..n], loans[n];
      assert AtMostOneActive(prefix) by {
        forall i, j | 0 <= i < n && 0 <= j < n && prefix[i].isbn == prefix[j].isbn
          && !prefix[i].returned && !prefix[j].returned
          ensures i == j
        {
          assert loans[i] == prefix[i] && loans[j] == prefix[j];
        }
      }
      CountIsActiveIsbns(prefix);
      var extra: set<string> := if last.returned then {} else {last.isbn};
      assert ActiveIsbns(loans) == ActiveIsbns(prefix) + extra by {
        forall x | x in ActiveIsbns(loans) ensures x in ActiveIsbns(prefix) + extra {
          var i :| 0 <= i < |loans| && !loans[i].returned && loans[i].isbn == x;
          if i < n {
            assert prefix[i] == loans[i];
          }
        }
        forall x | x in ActiveIsbns(prefix) ensures x in ActiveIsbns(loans) {
          var i :| 0 <= i < n && !prefix[i].returned && prefix[i].isbn == x;
          assert loans[i] == prefix[i];
        }
      }
      assert !last.returned ==> last.isbn !in ActiveIsbns(prefix);
    }
  }

  /** Under the invariant, once the first matching loan has been returned no
      matching loan is left, so repeating the same return finds nothing. */
  lemma ReturnClearsMatch(loans: seq<Loan>, isbn: string, memberId: string, k: nat)
    requires AtMostOneActive(loans)
    requires FirstActiveMatch(loans, isbn, memberId) == Some(k)
    ensures FirstActiveMatch(loans[k := loans[k].MarkReturned()], isbn, memberId) == None
  {
  }
}
