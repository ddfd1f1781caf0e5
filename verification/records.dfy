/** The validated value records of the catalogue: Author, Book, Member and Loan.
    Each is held by value (a Book holds a copy of its Author, the Library holds
    copies of everything), so a setter is modelled as producing the updated value;
    a rejected argument is an `Err` instead of a thrown `std::invalid_argument`. */
module Records {
  import opened StringOrder

  /** The one error kind, with the check that raised it. */
  datatype ValidationError =
    | InvalidBirthYear
    | InvalidYear
    | NegativePrice
    | EmptyMemberId
    | DueBeforeStart

  datatype Result<T> = Ok(value: T) | Err(error: ValidationError)

  const MinBirthYear := 1850
  const MaxBirthYear := 2025
  const MinYear := 1500
  const MaxYear := 2025

  predicate ValidBirthYear(y: int) { MinBirthYear <= y <= MaxBirthYear }
  predicate ValidYear(y: int) { MinYear <= y <= MaxYear }
  predicate ValidPrice(p: real) { 0.0 <= p }

  // ---------------------------------------------------------------- Author

  datatype Author = Author(name: string, birthYear: int) {
    predicate Valid() { ValidBirthYear(birthYear) }

    /** Accepts exactly the years 1850..2025; the name is kept. */
    function SetBirthYear(y: int): (r: Result<Author>)
      ensures r.Ok? <==> MinBirthYear <= y <= MaxBirthYear
      ensures r.Ok? ==> r.value.Valid() && r.value.name == name && r.value.birthYear == y
      ensures r.Err? ==> r.error == InvalidBirthYear
    {
      if ValidBirthYear(y) then Ok(this.(birthYear := y)) else Err(InvalidBirthYear)
    }
  }

  /** The constructor stores the name, then validates the year through the setter.
      Trailing arguments may be omitted, as in the source's default arguments. */
  function NewAuthor(name: string := "Unknown", birthYear: int := 1900): (r: Result<Author>)
    ensures r.Ok? <==> MinBirthYear <= birthYear <= MaxBirthYear
    ensures r.Ok? ==> r.value.Valid() && r.value.name == name && r.value.birthYear == birthYear
    ensures r.Err? ==> r.error == InvalidBirthYear
  {
    Author(name, birthYear).SetBirthYear(birthYear)
  }

  /** `Author()` with its default arguments: a valid author. */
  function DefaultAuthor(): (a: Author)
    ensures NewAuthor() == Ok(a)
  {
    Author("Unknown", 1900)
  }

  /** Omitting the birth year gives 1900, which is accepted. */
  lemma AuthorDefaultYear(name: string)
    ensures NewAuthor(name) == Ok(Author(name, 1900))
  {
  }

  // ---------------------------------------------------------------- Book

  /** The price is a `real`: only its sign is ever checked. */
  datatype Book = Book(title: string, author: Author, year: int, price: real, isbn: string) {
    /** What the constructor guarantees, including its author's own check. */
    predicate Valid() { ValidYear(year) && ValidPrice(price) && author.Valid() }

    /** Accepts exactly the years 1500..2025; every other field is kept. */
    function SetYear(y: int): (r: Result<Book>)
      ensures r.Ok? <==> MinYear <= y <= MaxYear
      ensures r.Ok? ==> r.value.year == y && r.value.price == price
      ensures r.Ok? ==> r.value.title == title && r.value.author == author && r.value.isbn == isbn
      ensures r.Err? ==> r.error == InvalidYear
    {
      if ValidYear(y) then Ok(this.(year := y)) else Err(InvalidYear)
    }

    /** Accepts exactly the non-negative prices; every other field is kept. */
    function SetPrice(p: real): (r: Result<Book>)
      ensures r.Ok? <==> 0.0 <= p
      ensures r.Ok? ==> r.value.price == p && r.value.year == year
      ensures r.Ok? ==> r.value.title == title && r.value.author == author && r.value.isbn == isbn
      ensures r.Err? ==> r.error == NegativePrice
    {
      if ValidPrice(p) then Ok(this.(price := p)) else Err(NegativePrice)
    }
  }

  /** The constructor stores every field, then runs `setYear` and `setPrice` in
      that order, so a bad year is reported even when the price is bad too.
      The author, an already constructed `Author`, has passed its own check. */
  function NewBook(title: string, author: Author, year: int, price: real, isbn: string): (r: Result<Book>)
    requires author.Valid()
    ensures r.Ok? <==> MinYear <= year <= MaxYear && 0.0 <= price
    ensures r.Ok? ==> r.value.Valid()
    ensures r.Ok? ==> r.value.title == title && r.value.author == author && r.value.year == year
                      && r.value.price == price && r.value.isbn == isbn
    ensures r.Err? && !ValidYear(year) ==> r.error == InvalidYear
    ensures r.Err? && ValidYear(year) ==> r.error == NegativePrice
  {
    match Book(title, author, year, price, isbn).SetYear(year)
    case Err(e) => Err(e)
    case Ok(b) => b.SetPrice(price)
  }

  /** `Book()`: the sentinel "Untitled" book, which passes the constructor's checks. */
  function DefaultBook(): (b: Book)
    ensures b.Valid() && b.author == DefaultAuthor()
    ensures NewBook(b.title, b.author, b.year, b.price, b.isbn) == Ok(b)
  {
    Book("Untitled", DefaultAuthor(), 2000, 0.0, "0000")
  }

  // ---------------------------------------------------------------- Member

  /** Name and join year are never validated; the id must not be empty. */
  datatype Member = Member(name: string, memberId: string, yearJoined: int) {
    predicate Valid() { memberId != [] }
  }

  /** Trailing arguments may be omitted, as in the source's default arguments. */
  function NewMember(name: string := "Unknown", memberId: string := "none", yearJoined: int := 2000): (r: Result<Member>)
    ensures r.Ok? <==> |memberId| > 0
    ensures r.Ok? ==> r.value.Valid() && r.value.name == name && r.value.memberId == memberId && r.value.yearJoined == yearJoined
    ensures r.Err? ==> r.error == EmptyMemberId
  {
    if memberId == [] then Err(EmptyMemberId) else Ok(Member(name, memberId, yearJoined))
  }

  /** `Member()` with its default arguments: id "none", which is accepted. */
  function DefaultMember(): (m: Member)
    ensures NewMember() == Ok(m)
  {
    Member("Unknown", "none", 2000)
  }

  /** Omitting the id gives "none", which is accepted; omitting the join year gives 2000. */
  lemma MemberDefaultArguments(name: string, memberId: string)
    ensures NewMember(name) == Ok(Member(name, "none", 2000))
    ensures NewMember(name, memberId) == if memberId == [] then Err(EmptyMemberId) else Ok(Member(name, memberId, 2000))
  {
  }

  // ---------------------------------------------------------------- Loan

  /** Dates are opaque strings ordered by `StringOrder.Less`. A loan is active
      while `returned` is false; returning is one-way. */
  datatype Loan = Loan(isbn: string, memberId: string, startDate: string, dueDate: string, returned: bool) {
    /** The constructor's date check: the due date is not before the start date. */
    predicate Valid() { !Less(dueDate, startDate) }

    /** Sets the flag, whatever it was; nothing else changes, and a returned
        loan is never overdue. */
    function MarkReturned(): (r: Loan)
      ensures r.returned
      ensures r.isbn == isbn && r.memberId == memberId
      ensures r.startDate == startDate && r.dueDate == dueDate
      ensures forall today :: !r.IsOverdue(today)
    {
      this.(returned := true)
    }

    /** Still out, and `today` comes strictly after the due date. */
    predicate IsOverdue(today: string)
    {
      !returned && Less(dueDate, today)
    }
  }

  /** A new loan is active; it is rejected exactly when `due < start`. */
  function NewLoan(isbn: string, memberId: string, start: string, due: string): (r: Result<Loan>)
    ensures r.Ok? <==> !Less(due, start)
    ensures r.Ok? ==> r.value.Valid() && !r.value.returned
    ensures r.Ok? ==> r.value.isbn == isbn && r.value.memberId == memberId
                      && r.value.startDate == start && r.value.dueDate == due
    ensures r.Err? ==> r.error == DueBeforeStart
  {
    if Less(due, start) then Err(DueBeforeStart) else Ok(Loan(isbn, memberId, start, due, false))
  }

  /** Equal dates are accepted, and more generally a loan is created exactly
      when its start date is equal to or before its due date. */
  lemma NewLoanAcceptsOrderedDates(isbn: string, memberId: string, start: string, due: string)
    ensures NewLoan(isbn, memberId, start, start).Ok?
    ensures NewLoan(isbn, memberId, start, due).Ok? <==> start == due || Less(start, due)
  {
    LessIrreflexive(start);
    LessTotal(start, due);
    if Less(start, due) {
      LessAsymmetric(start, due);
    }
  }

  /** Returning twice is the same as returning once. */
  lemma MarkReturnedIdempotent(l: Loan)
    ensures l.MarkReturned().MarkReturned() == l.MarkReturned()
    ensures l.MarkReturned().Valid() == l.Valid()
  {
  }

  /** A loan that passed the date check can only be overdue strictly after its start. */
  lemma OverdueImpliesAfterStart(l: Loan, today: string)
    requires l.Valid() && l.IsOverdue(today)
    ensures Less(l.startDate, today)
  {
    LessTotal(l.startDate, l.dueDate);
    if Less(l.startDate, l.dueDate) {
      LessTransitive(l.startDate, l.dueDate, today);
    }
  }
}
