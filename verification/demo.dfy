/** The demonstration run of the catalogue, with its console output replaced
    by assertions about the values it would print. It is split into phases,
    each stating the library state it starts from and leaves behind. */
module Demo {
  import opened StringOrder
  import opened Records
  import opened Ledger
  import opened LibrarySystem

  function Rowling(): Author { Author("J. K. Rowling", 1965) }
  function Tolkien(): Author { Author("J. R. R. Tolkien", 1892) }

  function Hp1(): Book { Book("Harry Potter and the Philosopher's Stone", Rowling(), 1997, 20.0, "HP001") }
  function Hp2(): Book { Book("Harry Potter and the Chamber of Secrets", Rowling(), 1998, 22.0, "HP002") }
  function Lotr(): Book { Book("The Lord of the Rings", Tolkien(), 1954, 30.0, "LOTR001") }

  /** The demonstration's first two due dates come after their start dates. */
  lemma DemoDatesInOrder()
    ensures !Less("2025-12-15", "2025-12-01")
    ensures !Less("2025-12-20", "2025-12-02")
  {
  }

  /** The demonstration, run with the dates it uses. */
  method Scenario() {
    DemoDatesInOrder();
    Run("2025-12-01", "2025-12-15", "2025-12-02", "2025-12-20", "2025-12-05", "2025-12-20");
  }

  /** The demonstration for any dates under which its first two loans are
      accepted; the third is refused whatever its dates. */
  method Run(start1: string, due1: string, start2: string, due2: string, start3: string, due3: string)
    requires !Less(due1, start1) && !Less(due2, start2)
  {
    var lib := Seed();
    LoanPhase(lib, start1, due1, start2, due2, start3, due3);
    ReturnPhase(lib, start1, due1, start2, due2);
    var byRowling, byNobody := FindPhase(lib);
  }

  /** Three books, two of them by Rowling, and two members; no loans yet.
      Every author, book and member passes its constructor. */
  method Seed() returns (lib: Library)
    ensures fresh(lib) && lib.Valid()
    ensures lib.books == [Hp1(), Hp2(), Lotr()] && |lib.members| == 2 && lib.loans == []
  {
    assert NewAuthor("J. K. Rowling", 1965) == Ok(Rowling());
    assert NewAuthor("J. R. R. Tolkien", 1892) == Ok(Tolkien());
    assert NewBook(Hp1().title, Rowling(), 1997, 20.0, "HP001") == Ok(Hp1());
    assert NewBook(Hp2().title, Rowling(), 1998, 22.0, "HP002") == Ok(Hp2());
    assert NewBook(Lotr().title, Tolkien(), 1954, 30.0, "LOTR001") == Ok(Lotr());
    var m1, m2 := Member("Ivan Ivanov", "M001", 2020), Member("Maria Petrova", "M002", 2021);
    assert NewMember("Ivan Ivanov", "M001", 2020) == Ok(m1);
    assert NewMember("Maria Petrova", "M002", 2021) == Ok(m2);
    lib := new Library();
    lib.AddBook(Hp1());
    lib.AddBook(Hp2());
    lib.AddBook(Lotr());
    lib.AddMember(m1);
    lib.AddMember(m2);
    var nBooks, nMembers, nActive := lib.Counts();
    assert nBooks == 3 && nMembers == 2 && nActive == 0;
  }

  /** HP001 goes to M001 and LOTR001 to M002; M002 then cannot have HP001. */
  method LoanPhase(lib: Library, start1: string, due1: string, start2: string, due2: string,
                   start3: string, due3: string)
    requires lib.Valid() && lib.books == [Hp1(), Hp2(), Lotr()] && |lib.members| == 2 && lib.loans == []
    requires !Less(due1, start1) && !Less(due2, start2)
    modifies lib
    ensures lib.Valid() && lib.books == [Hp1(), Hp2(), Lotr()] && |lib.members| == 2
    ensures lib.loans == [Loan("HP001", "M001", start1, due1, false), Loan("LOTR001", "M002", start2, due2, false)]
  {
    assert lib.books[0].isbn == "HP001";
    var ok := lib.LoanBook("HP001", "M001", start1, due1);
    assert ok.Ok? && ok.value;
    assert lib.loans == [Loan("HP001", "M001", start1, due1, false)];
    assert "HP001" != "LOTR001";
    assert lib.books[2].isbn == "LOTR001";
    ok := lib.LoanBook("LOTR001", "M002", start2, due2);
    assert ok.Ok? && ok.value;
    var nBooks, nMembers, nActive := lib.Counts();
    assert nBooks == 3 && nMembers == 2 && nActive == 2;
    assert lib.loans[0].isbn == "HP001" && !lib.loans[0].returned;
    ok := lib.LoanBook("HP001", "M002", start3, due3);
    assert ok.Ok? && !ok.value;
  }

  /** Returning HP001 from M001 succeeds: HP001 is listed as returned and
      LOTR001 as still out, with 3 books, 2 members and 1 active loan. Beyond
      the demonstration, a repeated return is checked to fail. */
  method ReturnPhase(lib: Library, start1: string, due1: string, start2: string, due2: string)
    requires lib.Valid() && |lib.books| == 3 && |lib.members| == 2
    requires lib.loans == [Loan("HP001", "M001", start1, due1, false), Loan("LOTR001", "M002", start2, due2, false)]
    modifies lib
    ensures lib.books == old(lib.books) && lib.Valid()
  {
    assert Matches(lib.loans[0], "HP001", "M001");
    assert CountActive(lib.loans[..1]) == 1;
    assert CountActive(lib.loans) == 2;
    var back := lib.ReturnBook("HP001", "M001");
    assert back;
    assert lib.loans == [Loan("HP001", "M001", start1, due1, true), Loan("LOTR001", "M002", start2, due2, false)];
    var nBooks, nMembers, nActive := lib.Counts();
    assert nBooks == 3 && nMembers == 2 && nActive == 1;
    back := lib.ReturnBook("HP001", "M001");
    assert !back;
  }

  /** Rowling's two books come back in insertion order. Beyond the
      demonstration, an unknown author is checked to get none. */
  method FindPhase(lib: Library) returns (byRowling: seq<Book>, byNobody: seq<Book>)
    requires lib.books == [Hp1(), Hp2(), Lotr()]
    ensures byRowling == [Hp1(), Hp2()] && byNobody == []
  {
    byRowling := lib.FindByAuthor("J. K. Rowling");
    assert [Hp1(), Hp2(), Lotr()] == [Hp1(), Hp2()] + [Lotr()];
    BooksByConcat([Hp1(), Hp2()], [Lotr()], "J. K. Rowling");
    assert byRowling == [Hp1(), Hp2()];
    byNobody := lib.FindByAuthor("Nobody");
    assert |Rowling().name| != |"Nobody"| && |Tolkien().name| != |"Nobody"|;
    BooksByEmpty(lib.books, "Nobody");
    assert byNobody == [];
  }
}
