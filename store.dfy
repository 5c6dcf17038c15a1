/** The data layer as the data service sees it (the `IDataLayerAPI` collaborator, whose own code is
    not part of this model): one sequence per entity kind plus the event log. This module holds
    the checks the data service performs before it changes the data layer, the new data layer
    each successful operation produces, the invariants those operations keep, and the proofs. */
module Store {
  import opened Common
  import opened Seqs
  import opened DataObjects
  import opened EventLog

  datatype DataLayer = DataLayer(
    authors: seq<Author>, books: seq<Book>, copies: seq<CopyOfBook>,
    employees: seq<Employee>, readers: seq<Reader>, events: seq<Event>)

  function AuthorIds(s: seq<Author>): set<Id> { set a | a in s :: a.id }
  function CopyIds(s: seq<CopyOfBook>): set<Id> { set c | c in s :: c.id }
  function EmployeeIds(s: seq<Employee>): set<Id> { set e | e in s :: e.person.id }
  function ReaderIds(s: seq<Reader>): set<Id> { set r | r in s :: r.person.id }
  function EventIds(log: seq<Event>): set<Id> { set e | e in log :: EventId(e) }
  function RentIds(log: seq<Event>): set<Id> { set r | r in Rents(log) :: r.id }

  /** The reasons the data service throws; each stands for one exception message. */
  datatype ServiceError =
    | AuthorReferenced      // "At least one book has reference to author!"
    | AuthorNotFound        // "Author doesn't exists in repository!"
    | BookReferenced        // "At least one copy of book has reference to book!"
    | CopyRented            // "This copy of book is already rented!" (on deletion)
    | ReaderHasRent         // "Reader has got rent currently!"
    | DuplicatePerson       // "Person with the same email or phone number exists!"
    | InvalidEmail          // "Invalid email format!"
    | InvalidPhone          // "Invalid phone number format!"
    | ReaderNotFound        // "Reader doesn't exist in repository!"
    | EmployeeNotFound      // "Employee doesn't exist in repository!"
    | CopyNotFound          // "At least one of book doesn't exists in repository!"
    | CopyAlreadyRented     // "This copy of book is already rented!" (on renting)
    | ReaderAlreadyRenting  // "This reader already has rent"
    | RentNotFound          // "Rent didn't happen!"
    | RentClosed            // "Rent is closed!"
    | CopyNotOutstanding    // "At least one of returned copies doesn't contain in rent or ..."

  // ---------------------------------------------------------------------------------------------
  // Deletion guards and the data layer's deletions (the first entity with the given id goes).

  predicate AuthorHasBooks(d: DataLayer, author: Id) {
    exists b :: b in d.books && b.author == author
  }

  predicate BookHasCopies(d: DataLayer, book: Id) {
    exists c :: c in d.copies && c.book == book
  }

  /** The reader has an open rent. */
  ghost predicate HasOpenRent(log: seq<Event>, reader: Id) {
    exists r :: r in CurrentRents(log) && r.reader == reader
  }

  function RemoveAuthor(s: seq<Author>, id: Id): seq<Author> {
    RemoveFirstWhere(s, (a: Author) => a.id == id)
  }

  function RemoveBook(s: seq<Book>, id: Id): seq<Book> {
    RemoveFirstWhere(s, (b: Book) => b.id == id)
  }

  function RemoveCopy(s: seq<CopyOfBook>, id: Id): seq<CopyOfBook> {
    RemoveFirstWhere(s, (c: CopyOfBook) => c.id == id)
  }

  function RemoveReader(s: seq<Reader>, id: Id): seq<Reader> {
    RemoveFirstWhere(s, (r: Reader) => r.person.id == id)
  }

  // ---------------------------------------------------------------------------------------------
  // Registering people.

  predicate ValidPhoneNumber(phone: string) {
    |phone| == 9
  }

  /** The checks of `AddEmployee`, in order: no employee with this phone number or email, then a
      valid email (`emailValid` stands for `IsValidEmail`), then a valid phone number. */
  function EmployeeCheck(d: DataLayer, phone: string, email: string, emailValid: string -> bool)
    : Outcome<ServiceError>
  {
    if (exists e :: e in d.employees && e.person.phoneNumber == phone)
       || (exists e :: e in d.employees && e.person.email == email)
    then Fail(DuplicatePerson)
    else if !emailValid(email) then Fail(InvalidEmail)
    else if !ValidPhoneNumber(phone) then Fail(InvalidPhone)
    else Pass
  }

  /** The checks of `AddReader` as the source writes them: the phone number is compared with the
      readers' but the email with the EMPLOYEES'. */
  function ReaderCheck(d: DataLayer, phone: string, email: string, emailValid: string -> bool)
    : Outcome<ServiceError>
  {
    if (exists r :: r in d.readers && r.person.phoneNumber == phone)
       || (exists e :: e in d.employees && e.person.email == email)
    then Fail(DuplicatePerson)
    else if !emailValid(email) then Fail(InvalidEmail)
    else if !ValidPhoneNumber(phone) then Fail(InvalidPhone)
    else Pass
  }

  /** No two employees share a phone number or an email. */
  ghost predicate EmployeeContactsUnique(s: seq<Employee>) {
    forall i, j :: 0 <= i < j < |s| ==>
      s[i].person.phoneNumber != s[j].person.phoneNumber && s[i].person.email != s[j].person.email
  }

  /** Registering an employee keeps employees' phone numbers and emails unique, and the new
      employee has a nine-character phone number and an email `emailValid` accepts. */
  lemma AddEmployeeKeepsContactsUnique(d: DataLayer, e: Employee, emailValid: string -> bool)
    requires EmployeeContactsUnique(d.employees)
    requires EmployeeCheck(d, e.person.phoneNumber, e.person.email, emailValid) == Pass
    ensures EmployeeContactsUnique(d.employees + [e])
    ensures |e.person.phoneNumber| == 9 && emailValid(e.person.email)
  {
    var s := d.employees + [e];
    forall i, j | 0 <= i < j < |s|
      ensures s[i].person.phoneNumber != s[j].person.phoneNumber && s[i].person.email != s[j].person.email
    {
      if j == |s| - 1 {
        assert s[i] in d.employees;
      }
    }
  }

  /** The reader check lets a second reader register with an email another reader already has,
      as long as no employee has it. */
  lemma ReaderCheckAdmitsDuplicateReaderEmail()
    ensures var p := Person(1, "Ann", "Lee", 0, "123456789", "ann@example.com", 0);
            var d := DataLayer([], [], [], [], [Reader(p, 0, 0.0)], []);
            ReaderCheck(d, "987654321", "ann@example.com", (s: string) => true) == Pass
            && exists r :: r in d.readers && r.person.email == "ann@example.com"
  {
    var p := Person(1, "Ann", "Lee", 0, "123456789", "ann@example.com", 0);
    var d := DataLayer([], [], [], [], [Reader(p, 0, 0.0)], []);
    assert d.readers[0].person.email == "ann@example.com";
    assert "123456789" != "987654321" by { assert "123456789"[0] != "987654321"[0]; }
  }

  // ---------------------------------------------------------------------------------------------
  // Renting.

  /** What is wrong with renting one copy: it is not in the data layer, or it is already out. */
  ghost function CopyProblem(d: DataLayer, c: Id): Option<ServiceError> {
    if c !in CopyIds(d.copies) then Some(CopyNotFound)
    else if IsRented(d.events, c) then Some(CopyAlreadyRented)
    else None
  }

  /** The problem of the first copy in list order that has one. */
  ghost function FirstCopyProblem(d: DataLayer, books: seq<Id>): (r: Option<ServiceError>)
    ensures r.None? <==> forall i :: 0 <= i < |books| ==> CopyProblem(d, books[i]).None?
    ensures r.Some? ==> exists i :: 0 <= i < |books| && r == CopyProblem(d, books[i])
                                    && forall j :: 0 <= j < i ==> CopyProblem(d, books[j]).None?
  {
    if books == [] then None
    else if CopyProblem(d, books[0]).Some? then CopyProblem(d, books[0])
    else
      var r := FirstCopyProblem(d, books[1..]);
      assert r.Some? ==> exists i :: 1 <= i < |books| && r == CopyProblem(d, books[i])
                                     && forall j :: 1 <= j < i ==> CopyProblem(d, books[j]).None? by {
        if r.Some? {
          var k :| 0 <= k < |books[1..]| && r == CopyProblem(d, books[1..][k])
                   && forall j :: 0 <= j < k ==> CopyProblem(d, books[1..][j]).None?;
          assert forall j :: 1 <= j < k + 1 ==> books[j] == books[1..][j - 1];
        }
      }
      r
  }

  /** The checks of `AddRent`, in the order the source makes them; the first failure wins. */
  ghost function RentCheck(d: DataLayer, reader: Id, employee: Id, books: seq<Id>)
    : Outcome<ServiceError>
  {
    if reader !in ReaderIds(d.readers) then Fail(ReaderNotFound)
    else if employee !in EmployeeIds(d.employees) then Fail(EmployeeNotFound)
    else if FirstCopyProblem(d, books).Some? then Fail(FirstCopyProblem(d, books).value)
    else if HasOpenRent(d.events, reader) then Fail(ReaderAlreadyRenting)
    else Pass
  }

  /** The rent `AddRent` records: open, holding each listed copy once. */
  function NewRent(id: Id, reader: Id, employee: Id, books: seq<Id>, now: Date): Rent {
    Rent(id, reader, employee, Dedup(books), now, None)
  }

  /** A request listing each copy once is recorded with its copies as listed, in order. */
  lemma NewRentKeepsDistinctList(id: Id, reader: Id, employee: Id, books: seq<Id>, now: Date)
    requires Distinct(books)
    ensures NewRent(id, reader, employee, books, now).copies == books
    ensures NewRent(id, reader, employee, books, now).dateOfReturn.None?
  {
    DedupOfDistinct(books);
  }

  /** A rent check passes exactly when the reader and the employee exist, every listed copy exists
      and is not rented, and the reader has no open rent. */
  lemma RentCheckPasses(d: DataLayer, reader: Id, employee: Id, books: seq<Id>)
    ensures RentCheck(d, reader, employee, books) == Pass <==>
      && reader in ReaderIds(d.readers)
      && employee in EmployeeIds(d.employees)
      && (forall c :: c in books ==> c in CopyIds(d.copies) && !IsRented(d.events, c))
      && !HasOpenRent(d.events, reader)
  {
    if FirstCopyProblem(d, books).None? {
      forall c | c in books ensures c in CopyIds(d.copies) && !IsRented(d.events, c) {
        var i :| 0 <= i < |books| && books[i] == c;
        assert CopyProblem(d, books[i]).None?;
      }
    } else {
      var i :| 0 <= i < |books| && CopyProblem(d, books[i]).Some?;
      assert books[i] in books;
    }
  }

  // ---------------------------------------------------------------------------------------------
  // Returning.

  /** The first rent of `rs` with id `id` (`List.Contains` under id equality). */
  function FindRent(rs: seq<Rent>, id: Id): (r: Option<Rent>)
    ensures r.Some? ==> r.value in rs && r.value.id == id
    ensures r.None? <==> forall x :: x in rs ==> x.id != id
  {
    match FirstIndex(rs, (x: Rent) => x.id == id)
    case None => None
    case Some(k) => Some(rs[k])
  }

  /** The checks of `AddReturn`, in order: the rent was recorded, it is still open, and every
      returned copy is still outstanding under it. */
  ghost function ReturnCheck(d: DataLayer, rentId: Id, books: seq<Id>): Outcome<ServiceError> {
    match FindRent(Rents(d.events), rentId)
    case None => Fail(RentNotFound)
    case Some(rent) =>
      if !(exists r :: r in CurrentRents(d.events) && r.id == rentId) then Fail(RentClosed)
      else if !(forall k :: 0 <= k < |books| ==> books[k] in Outstanding(d.events, rent)) then Fail(CopyNotOutstanding)
      else Pass
  }

  /** The log after a return: the `Return` is appended, and the rent is closed at `now` if nothing
      of it is then outstanding. */
  function AfterReturn(log: seq<Event>, rent: Rent, ret: Return, now: Date): seq<Event> {
    var log1 := log + [ReturnEvent(ret)];
    if Outstanding(log1, rent) == [] then CloseRent(log1, rent.id, now) else log1
  }

  // ---------------------------------------------------------------------------------------------
  // Invariants.

  /** Facts any log has: event ids are fresh Guids, and a rent's copies are dictionary keys. */
  ghost predicate WellFormed(log: seq<Event>) {
    && (forall i, j :: 0 <= i < j < |log| ==> EventId(log[i]) != EventId(log[j]))
    && (forall r :: RentEvent(r) in log ==> Distinct(r.copies))
  }

  /** Every return is made against a recorded rent. */
  ghost predicate ReturnsReferToRents(log: seq<Event>) {
    forall t :: ReturnEvent(t) in log ==> t.rent in RentIds(log)
  }

  /** A reader has at most one open rent. */
  ghost predicate AtMostOneOpenRentPerReader(log: seq<Event>) {
    forall r1, r2 :: r1 in CurrentRents(log) && r2 in CurrentRents(log) && r1.reader == r2.reader
      ==> r1 == r2
  }

  /** No copy is outstanding under two open rents. */
  ghost predicate NoCopyInTwoOpenRents(log: seq<Event>) {
    forall r1, r2, c ::
      (r1 in CurrentRents(log) && r2 in CurrentRents(log)
       && c in Outstanding(log, r1) && c in Outstanding(log, r2)) ==> r1 == r2
  }

  /** A closed rent has nothing outstanding. */
  ghost predicate ClosedRentsReturned(log: seq<Event>) {
    forall r :: r in Rents(log) && !IsOpen(r) ==> Outstanding(log, r) == []
  }

  /** The cross-entity invariants the data service keeps. */
  ghost predicate Inv(d: DataLayer) {
    && WellFormed(d.events)
    && ReturnsReferToRents(d.events)
    && AtMostOneOpenRentPerReader(d.events)
    && NoCopyInTwoOpenRents(d.events)
    && ClosedRentsReturned(d.events)
    && (forall r :: r in CurrentRents(d.events) ==> r.reader in ReaderIds(d.readers))
    && (forall c :: IsRented(d.events, c) ==> c in CopyIds(d.copies))
    && (forall b :: b in d.books ==> b.author in AuthorIds(d.authors))
  }

  lemma SameIdSameRent(log: seq<Event>, r1: Rent, r2: Rent)
    requires WellFormed(log)
    requires RentEvent(r1) in log && RentEvent(r2) in log && r1.id == r2.id
    ensures r1 == r2
  {
    var i :| 0 <= i < |log| && log[i] == RentEvent(r1);
    var j :| 0 <= j < |log| && log[j] == RentEvent(r2);
    assert EventId(log[i]) == EventId(log[j]);
  }

  /** A rent with a fresh id has no returns against it, so all its copies are outstanding. */
  lemma FreshRentOutstanding(log: seq<Event>, r: Rent)
    requires ReturnsReferToRents(log) && r.id !in RentIds(log)
    ensures Outstanding(log, r) == r.copies
  {
    NoReturnsFor(Returns(log), r.id, log);
    WithoutNothing(r.copies);
  }

  lemma {:induction false} NoReturnsFor(ts: seq<Return>, id: Id, log: seq<Event>)
    requires forall t :: t in ts ==> ReturnEvent(t) in log
    requires ReturnsReferToRents(log) && id !in RentIds(log)
    ensures ReturnsFor(ts, id) == []
  {
    if ts != [] {
      var last := ts[|ts| - 1];
      assert last in ts;
      assert forall t :: t in ts[..|ts| - 1] ==> t in ts;
      NoReturnsFor(ts[..|ts| - 1], id, log);
    }
  }

  lemma RentIdsAreEventIds(log: seq<Event>)
    ensures RentIds(log) <= EventIds(log)
  {
    forall x | x in RentIds(log) ensures x in EventIds(log) {
      var r :| r in Rents(log) && r.id == x;
      assert EventId(RentEvent(r)) == x;
    }
  }

  // ---------------------------------------------------------------------------------------------
  // Renting keeps the invariants and has the promised effect.

  /** The data layer after a successful `AddRent`. */
  function WithRent(d: DataLayer, r: Rent): DataLayer {
    d.(events := d.events + [RentEvent(r)])
  }

  lemma RentsAfterRent(log: seq<Event>, r: Rent)
    ensures Rents(log + [RentEvent(r)]) == Rents(log) + [r]
    ensures IsOpen(r) ==> CurrentRents(log + [RentEvent(r)]) == CurrentRents(log) + [r]
  {
    assert (log + [RentEvent(r)])[..|log|] == log;
    var rs := Rents(log);
    assert (rs + [r])[..|rs|] == rs;
  }

  lemma AddRentKeepsWellFormed(log: seq<Event>, r: Rent)
    requires WellFormed(log) && r.id !in EventIds(log) && Distinct(r.copies)
    ensures WellFormed(log + [RentEvent(r)])
  {
    var log' := log + [RentEvent(r)];
    forall i, j | 0 <= i < j < |log'| ensures EventId(log'[i]) != EventId(log'[j]) {
      if j == |log| {
        assert log'[i] in log;
      }
    }
  }

  lemma AddRentKeepsInv(d: DataLayer, reader: Id, employee: Id, books: seq<Id>, id: Id, now: Date)
    requires Inv(d) && id !in EventIds(d.events)
    requires RentCheck(d, reader, employee, books) == Pass
    ensures Inv(WithRent(d, NewRent(id, reader, employee, books, now)))
  {
    var nr := NewRent(id, reader, employee, books, now);
    var log, log' := d.events, d.events + [RentEvent(nr)];
    RentCheckPasses(d, reader, employee, books);
    RentsAfterRent(log, nr);
    RentIdsAreEventIds(log);
    AddRentKeepsWellFormed(log, nr);
    forall r ensures Outstanding(log', r) == Outstanding(log, r) {
      OutstandingAfterRent(log, nr, r);
    }
    FreshRentOutstanding(log, nr);
    assert ReturnsReferToRents(log') by {
      forall t | ReturnEvent(t) in log' ensures t.rent in RentIds(log') {
        assert ReturnEvent(t) in log;
      }
    }
    NewRentKeepsCopiesApart(log, log', nr, books);
    assert forall c :: IsRented(log', c) ==> c in CopyIds(d.copies) by {
      forall c | IsRented(log', c) ensures c in CopyIds(d.copies) {
        var r :| RentEvent(r) in log' && IsOpen(r) && c in Outstanding(log', r);
        if r != nr {
          assert IsRented(log, c);
        }
      }
    }
  }

  /** A rent of copies that are not rented takes no copy another open rent holds. */
  lemma NewRentKeepsCopiesApart(log: seq<Event>, log': seq<Event>, nr: Rent, books: seq<Id>)
    requires NoCopyInTwoOpenRents(log)
    requires log' == log + [RentEvent(nr)] && IsOpen(nr)
    requires CurrentRents(log') == CurrentRents(log) + [nr]
    requires forall r :: Outstanding(log', r) == Outstanding(log, r)
    requires forall c :: c in Outstanding(log, nr) ==> c in books
    requires forall c :: c in books ==> !IsRented(log, c)
    ensures NoCopyInTwoOpenRents(log')
  {
    forall r1, r2, c | r1 in CurrentRents(log') && r2 in CurrentRents(log') && r1 != r2
      && c in Outstanding(log', r2)
      ensures c !in Outstanding(log', r1)
    {
      if r1 == nr {
        assert IsRented(log, c);
      } else if r2 == nr {
        assert c in books;
      }
    }
  }

  /** After a successful `AddRent` every listed copy is rented. */
  lemma AddRentRentsCopies(d: DataLayer, reader: Id, employee: Id, books: seq<Id>, id: Id, now: Date, c: Id)
    requires Inv(d) && id !in EventIds(d.events)
    requires RentCheck(d, reader, employee, books) == Pass
    requires c in books
    ensures IsRented(WithRent(d, NewRent(id, reader, employee, books, now)).events, c)
  {
    var nr := NewRent(id, reader, employee, books, now);
    var log' := d.events + [RentEvent(nr)];
    RentIdsAreEventIds(d.events);
    FreshRentOutstanding(d.events, nr);
    OutstandingAfterRent(d.events, nr, nr);
    assert c in Outstanding(log', nr);
  }

  /** After a successful `AddRent` the new rent is the reader's one and only open rent, so a
      second `AddRent` for the same reader fails. */
  lemma AddRentOnlyOpenRent(d: DataLayer, reader: Id, employee: Id, books: seq<Id>, id: Id, now: Date)
    requires RentCheck(d, reader, employee, books) == Pass
    ensures var nr := NewRent(id, reader, employee, books, now);
            var log' := WithRent(d, nr).events;
            && (forall r :: r in CurrentRents(log') && r.reader == reader <==> r == nr)
            && forall e, bs :: RentCheck(WithRent(d, nr), reader, e, bs).Fail?
  {
    var nr := NewRent(id, reader, employee, books, now);
    var log' := d.events + [RentEvent(nr)];
    RentsAfterRent(d.events, nr);
    assert HasOpenRent(log', reader) by {
      assert nr in CurrentRents(log');
    }
  }

  // ---------------------------------------------------------------------------------------------
  // Returning keeps the invariants and has the promised effect.

  /** What a passing return check established about the rent it found. */
  lemma ReturnCheckFacts(d: DataLayer, rentId: Id, books: seq<Id>) returns (rent: Rent)
    requires WellFormed(d.events) && ReturnCheck(d, rentId, books) == Pass
    ensures FindRent(Rents(d.events), rentId) == Some(rent)
    ensures RentEvent(rent) in d.events && IsOpen(rent) && rent.id == rentId
    ensures forall c :: c in books ==> c in Outstanding(d.events, rent)
  {
    rent := FindRent(Rents(d.events), rentId).value;
    var r :| r in CurrentRents(d.events) && r.id == rentId;
    SameIdSameRent(d.events, r, rent);
  }

  lemma RentsAfterReturn(log: seq<Event>, t: Return)
    ensures Rents(log + [ReturnEvent(t)]) == Rents(log)
    ensures CurrentRents(log + [ReturnEvent(t)]) == CurrentRents(log)
  {
    assert (log + [ReturnEvent(t)])[..|log|] == log;
  }

  /** The open rents of a log after a close are open rents of the log before it, other than the
      one closed. */
  lemma OpenAfterClose(log: seq<Event>, id: Id, now: Date, r: Rent)
    requires r in CurrentRents(CloseRent(log, id, now))
    ensures r in CurrentRents(log) && r.id != id
  {
    CloseRentMember(log, id, now, r);
  }

  lemma AddReturnKeepsWellFormed(log: seq<Event>, rent: Rent, t: Return, now: Date)
    requires WellFormed(log) && t.id !in EventIds(log)
    ensures WellFormed(AfterReturn(log, rent, t, now))
  {
    AppendReturnKeepsWellFormed(log, t);
    CloseKeepsWellFormed(log + [ReturnEvent(t)], rent.id, now);
  }

  lemma CloseKeepsWellFormed(log: seq<Event>, id: Id, now: Date)
    requires WellFormed(log)
    ensures WellFormed(CloseRent(log, id, now))
  {
    var log2 := CloseRent(log, id, now);
    assert forall i :: 0 <= i < |log| ==> EventId(log2[i]) == EventId(log[i]);
    forall r | RentEvent(r) in log2 ensures Distinct(r.copies) {
      CloseRentMember(log, id, now, r);
    }
  }

  /** A log whose open rents and outstanding copies are among those of an invariant-keeping log
      keeps the invariants about open rents. */
  lemma FewerOpenKeepsInv(d: DataLayer, log': seq<Event>)
    requires Inv(d)
    requires WellFormed(log') && ReturnsReferToRents(log') && ClosedRentsReturned(log')
    requires forall r :: r in CurrentRents(log') ==> r in CurrentRents(d.events)
    requires forall r, c :: c in Outstanding(log', r) ==> c in Outstanding(d.events, r)
    ensures Inv(d.(events := log'))
  {
    forall c | IsRented(log', c) ensures c in CopyIds(d.copies) {
      var r :| RentEvent(r) in log' && IsOpen(r) && c in Outstanding(log', r);
      assert r in CurrentRents(log');
      assert IsRented(d.events, c);
    }
  }

  lemma AppendReturnKeepsWellFormed(log: seq<Event>, t: Return)
    requires WellFormed(log) && t.id !in EventIds(log)
    ensures WellFormed(log + [ReturnEvent(t)])
  {
    var log1 := log + [ReturnEvent(t)];
    forall i, j | 0 <= i < j < |log1| ensures EventId(log1[i]) != EventId(log1[j]) {
      if j == |log| {
        assert log1[i] in log;
      }
    }
  }

  lemma AppendReturnKeepsClosedReturned(log: seq<Event>, rent: Rent, t: Return)
    requires WellFormed(log) && ClosedRentsReturned(log)
    requires RentEvent(rent) in log && IsOpen(rent) && t.rent == rent.id
    ensures ClosedRentsReturned(log + [ReturnEvent(t)])
  {
    RentsAfterReturn(log, t);
    forall r | r in Rents(log + [ReturnEvent(t)]) && !IsOpen(r)
      ensures Outstanding(log + [ReturnEvent(t)], r) == []
    {
      if r.id == rent.id {
        SameIdSameRent(log, r, rent);
      }
      OutstandingAfterReturn(log, t, r);
    }
  }

  /** Appending a return against an open rent keeps the invariants. */
  lemma AppendReturnKeepsInv(d: DataLayer, rent: Rent, t: Return)
    requires Inv(d) && RentEvent(rent) in d.events && IsOpen(rent) && t.rent == rent.id
    requires t.id !in EventIds(d.events)
    ensures Inv(d.(events := d.events + [ReturnEvent(t)]))
  {
    var log, log1 := d.events, d.events + [ReturnEvent(t)];
    RentsAfterReturn(log, t);
    AppendReturnKeepsWellFormed(log, t);
    AppendReturnKeepsClosedReturned(log, rent, t);
    assert rent in Rents(log);
    assert ReturnsReferToRents(log1) by {
      forall x | ReturnEvent(x) in log1 ensures x.rent in RentIds(log1) {
        if x != t {
          assert ReturnEvent(x) in log;
        }
      }
    }
    forall r ensures forall c :: c in Outstanding(log1, r) ==> c in Outstanding(log, r) {
      OutstandingAfterReturn(log, t, r);
    }
    FewerOpenKeepsInv(d, log1);
  }

  lemma CloseKeepsReturnsRefer(log: seq<Event>, id: Id, now: Date)
    requires ReturnsReferToRents(log)
    ensures ReturnsReferToRents(CloseRent(log, id, now))
  {
    var log2 := CloseRent(log, id, now);
    ReturnsAfterClose(log, id, now);
    forall t | ReturnEvent(t) in log2 ensures t.rent in RentIds(log2) {
      assert t in Returns(log);
      var r0 :| r0 in Rents(log) && r0.id == t.rent;
      CloseRentKeeps(log, id, now, r0);
      assert CloseValue(r0, id, now) in Rents(log2);
    }
  }

  lemma CloseKeepsClosedReturned(log: seq<Event>, rent: Rent, now: Date)
    requires WellFormed(log) && ClosedRentsReturned(log)
    requires RentEvent(rent) in log && Outstanding(log, rent) == []
    ensures ClosedRentsReturned(CloseRent(log, rent.id, now))
  {
    var id := rent.id;
    var log2 := CloseRent(log, id, now);
    forall r | r in Rents(log2) && !IsOpen(r) ensures Outstanding(log2, r) == [] {
      CloseRentMember(log, id, now, r);
      var r0 :| RentEvent(r0) in log && r == CloseValue(r0, id, now);
      OutstandingAfterClose(log, id, now, r);
      if r0.id == id {
        SameIdSameRent(log, r0, rent);
        assert Outstanding(log, r) == Outstanding(log, rent);
      }
    }
  }

  /** Closing a rent with nothing outstanding keeps the invariants. */
  lemma CloseKeepsInv(d: DataLayer, rent: Rent, now: Date)
    requires Inv(d) && RentEvent(rent) in d.events && Outstanding(d.events, rent) == []
    ensures Inv(d.(events := CloseRent(d.events, rent.id, now)))
  {
    var id := rent.id;
    var log, log2 := d.events, CloseRent(d.events, rent.id, now);
    CloseKeepsWellFormed(log, id, now);
    CloseKeepsReturnsRefer(log, id, now);
    CloseKeepsClosedReturned(log, rent, now);
    forall r ensures Outstanding(log2, r) == Outstanding(log, r) {
      OutstandingAfterClose(log, id, now, r);
    }
    forall r | r in CurrentRents(log2) ensures r in CurrentRents(log) {
      OpenAfterClose(log, id, now, r);
    }
    FewerOpenKeepsInv(d, log2);
  }

  /** The data layer after a successful `AddReturn`. */
  ghost function WithReturn(d: DataLayer, rentId: Id, books: seq<Id>, retId: Id, now: Date): DataLayer
    requires FindRent(Rents(d.events), rentId).Some?
  {
    d.(events := AfterReturn(d.events, FindRent(Rents(d.events), rentId).value,
                             Return(retId, now, books, rentId), now))
  }

  lemma AddReturnKeepsInv(d: DataLayer, rentId: Id, books: seq<Id>, retId: Id, now: Date)
    requires Inv(d) && retId !in EventIds(d.events)
    requires ReturnCheck(d, rentId, books) == Pass
    ensures Inv(WithReturn(d, rentId, books, retId, now))
  {
    var rent := ReturnCheckFacts(d, rentId, books);
    var t := Return(retId, now, books, rentId);
    var d1 := d.(events := d.events + [ReturnEvent(t)]);
    AppendReturnKeepsInv(d, rent, t);
    if Outstanding(d1.events, rent) == [] {
      CloseKeepsInv(d1, rent, now);
    }
  }

  /** A returned copy is no longer rented, by this rent or any other. */
  lemma ReturnedCopyNotRented(d: DataLayer, rentId: Id, books: seq<Id>, retId: Id, now: Date, c: Id)
    requires Inv(d) && retId !in EventIds(d.events)
    requires ReturnCheck(d, rentId, books) == Pass
    requires c in books
    ensures !IsRented(WithReturn(d, rentId, books, retId, now).events, c)
  {
    var rent := ReturnCheckFacts(d, rentId, books);
    var t := Return(retId, now, books, rentId);
    var log, log1 := d.events, d.events + [ReturnEvent(t)];
    var log2 := WithReturn(d, rentId, books, retId, now).events;
    RentsAfterReturn(log, t);
    forall r | RentEvent(r) in log2 && IsOpen(r) ensures c !in Outstanding(log2, r) {
      assert r in CurrentRents(log2);
      if log2 != log1 {
        OpenAfterClose(log1, rentId, now, r);
        OutstandingAfterClose(log1, rentId, now, r);
      }
      OutstandingAfterReturn(log, t, r);
      if r.id != rentId {
        assert r != rent;
        assert c in Outstanding(log, rent);
      }
    }
  }

  /** After a successful `AddReturn` the rent is still open exactly when some of its copies are
      still out; when it closes, its `DateOfReturn` is `now`. */
  lemma ReturnClosesIffAllReturned(d: DataLayer, rentId: Id, books: seq<Id>, retId: Id, now: Date)
    requires Inv(d) && retId !in EventIds(d.events)
    requires ReturnCheck(d, rentId, books) == Pass
    ensures var rent := FindRent(Rents(d.events), rentId).value;
            var log2 := WithReturn(d, rentId, books, retId, now).events;
            && ((exists r :: r in CurrentRents(log2) && r.id == rentId) <==> Outstanding(log2, rent) != [])
            && (Outstanding(log2, rent) == [] ==> RentEvent(rent.(dateOfReturn := Some(now))) in log2)
  {
    var rent := ReturnCheckFacts(d, rentId, books);
    var t := Return(retId, now, books, rentId);
    var log, log1 := d.events, d.events + [ReturnEvent(t)];
    var log2 := WithReturn(d, rentId, books, retId, now).events;
    RentsAfterReturn(log, t);
    if Outstanding(log1, rent) == [] {
      OutstandingAfterClose(log1, rentId, now, rent);
      forall r | r in CurrentRents(log2) ensures r.id != rentId {
        OpenAfterClose(log1, rentId, now, r);
      }
      CloseRentKeeps(log1, rentId, now, rent);
    } else {
      assert rent in CurrentRents(log2);
    }
  }

  lemma ClosedRentRejects(d: DataLayer, rentId: Id, books: seq<Id>)
    requires forall r :: r in CurrentRents(d.events) ==> r.id != rentId
    ensures ReturnCheck(d, rentId, books).Fail?
  {
  }

  lemma NotOutstandingRejects(d: DataLayer, rentId: Id, rent: Rent, c: Id)
    requires FindRent(Rents(d.events), rentId) == Some(rent)
    requires c !in Outstanding(d.events, rent)
    ensures ReturnCheck(d, rentId, [c]).Fail?
  {
    assert c in [c];
  }

  /** Returning a copy a second time is refused: either the rent has closed, or the copy is no
      longer outstanding under it. */
  lemma ReturnTwiceRejected(d: DataLayer, rentId: Id, books: seq<Id>, retId: Id, now: Date, c: Id)
    requires Inv(d) && retId !in EventIds(d.events)
    requires ReturnCheck(d, rentId, books) == Pass
    requires c in books
    ensures ReturnCheck(WithReturn(d, rentId, books, retId, now), rentId, [c]).Fail?
  {
    var rent := ReturnCheckFacts(d, rentId, books);
    var t := Return(retId, now, books, rentId);
    var log, log1 := d.events, d.events + [ReturnEvent(t)];
    var d2 := WithReturn(d, rentId, books, retId, now);
    if Outstanding(log1, rent) == [] {
      assert d2.events == CloseRent(log1, rentId, now);
      forall r | r in CurrentRents(d2.events) ensures r.id != rentId {
        OpenAfterClose(log1, rentId, now, r);
      }
      ClosedRentRejects(d2, rentId, [c]);
    } else {
      assert d2.events == log1;
      RentsAfterReturn(log, t);
      OutstandingAfterReturn(log, t, rent);
      NotOutstandingRejects(d2, rentId, rent, c);
    }
  }

  // ---------------------------------------------------------------------------------------------
  // The catalogue operations keep the invariants.

  lemma DeleteAuthorKeepsInv(d: DataLayer, author: Id)
    requires Inv(d) && !AuthorHasBooks(d, author)
    ensures Inv(d.(authors := RemoveAuthor(d.authors, author)))
  {
    forall b | b in d.books ensures b.author in AuthorIds(RemoveAuthor(d.authors, author)) {
      var a :| a in d.authors && a.id == b.author;
      assert a in RemoveAuthor(d.authors, author);
    }
  }

  lemma DeleteBookKeepsInv(d: DataLayer, book: Id)
    requires Inv(d)
    ensures Inv(d.(books := RemoveBook(d.books, book)))
  {
  }

  lemma DeleteCopyKeepsInv(d: DataLayer, copy: Id)
    requires Inv(d) && !IsRented(d.events, copy)
    ensures Inv(d.(copies := RemoveCopy(d.copies, copy)))
  {
    forall c | IsRented(d.events, c) ensures c in CopyIds(RemoveCopy(d.copies, copy)) {
      var x :| x in d.copies && x.id == c;
      assert x in RemoveCopy(d.copies, copy);
    }
  }

  lemma DeleteReaderKeepsInv(d: DataLayer, reader: Id)
    requires Inv(d) && !HasOpenRent(d.events, reader)
    ensures Inv(d.(readers := RemoveReader(d.readers, reader)))
  {
    forall r | r in CurrentRents(d.events) ensures r.reader in ReaderIds(RemoveReader(d.readers, reader)) {
      var x :| x in d.readers && x.person.id == r.reader;
      assert x in RemoveReader(d.readers, reader);
    }
  }

  lemma AddBookKeepsInv(d: DataLayer, b: Book)
    requires Inv(d) && b.author in AuthorIds(d.authors)
    ensures Inv(d.(books := d.books + [b]))
  {
  }

  lemma AddPersonKeepsInv(d: DataLayer, e: Employee, r: Reader)
    requires Inv(d)
    ensures Inv(d.(employees := d.employees + [e]))
    ensures Inv(d.(readers := d.readers + [r]))
  {
    assert ReaderIds(d.readers) <= ReaderIds(d.readers + [r]);
  }

  lemma FirstCopyProblemStep(d: DataLayer, books: seq<Id>, i: nat)
    requires i < |books|
    ensures FirstCopyProblem(d, books[i..])
            == if CopyProblem(d, books[i]).Some? then CopyProblem(d, books[i]) else FirstCopyProblem(d, books[i + 1..])
  {
    assert books[i..][1..] == books[i + 1..];
  }

  /** Once the rent is found and open, the return check comes down to the copies. */
  lemma ReturnCheckOfCopies(d: DataLayer, rentId: Id, books: seq<Id>, rent: Rent)
    requires FindRent(Rents(d.events), rentId) == Some(rent)
    requires exists r :: r in CurrentRents(d.events) && r.id == rentId
    ensures ReturnCheck(d, rentId, books)
            == if forall k :: 0 <= k < |books| ==> books[k] in Outstanding(d.events, rent) then Pass
               else Fail(CopyNotOutstanding)
  {
  }
}
