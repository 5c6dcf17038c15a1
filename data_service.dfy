/** The business-logic layer: the data service checks each request against the data layer and
    the event log before it records anything, and answers availability queries by replaying the
    log. Each query below is a loop proved equal to the EventLog function that gives its meaning;
    each change is proved to produce the data layer Store describes and to keep Store's
    invariants. */
module BLL {
  import opened Common
  import opened Seqs
  import opened DataObjects
  import opened EventLog
  import opened Store

  class DataService {
    /** The data layer behind `IDataLayerAPI`, as a value the service replaces on each change. */
    var dataLayer: DataLayer

    /** What every data layer satisfies: event ids are fresh Guids and a rent's copies are the
        keys of a dictionary. */
    ghost predicate Valid()
      reads this
    {
      WellFormed(dataLayer.events)
    }

    constructor(dataLayer: DataLayer)
      requires WellFormed(dataLayer.events)
      ensures Valid() && this.dataLayer == dataLayer
    {
      this.dataLayer := dataLayer;
    }

    // -------------------------------------------------------------------------------------------
    // Replaying the log.

    /** The rents of the log, in log order. */
    method GetAllRents() returns (rents: seq<Rent>)
      ensures rents == Rents(dataLayer.events)
    {
      var log := dataLayer.events;
      rents := [];
      for i := 0 to |log|
        invariant rents == Rents(log[..i])
      {
        assert log[..i + 1][..i] == log[..i];
        if log[i].RentEvent? {
          rents := rents + [log[i].rent];
        }
      }
      assert log[..|log|] == log;
    }

    /** The rents of the log still open: all rents, then each closed one taken out again. */
    method GetAllCurrentRents() returns (rents: seq<Rent>)
      ensures rents == CurrentRents(dataLayer.events)
    {
      var all := GetAllRents();
      rents := all;
      for i := 0 to |all|
        invariant rents == OpenRents(all[..i]) + all[i..]
      {
        OpenRentsStep(all, i);
        if !IsOpen(all[i]) {
          rents := RemoveFirst(rents, all[i]);
        }
      }
      assert all[..|all|] == all;
    }

    /** The returns of the log, in log order. */
    method GetAllReturns() returns (rets: seq<Return>)
      ensures rets == Returns(dataLayer.events)
    {
      var log := dataLayer.events;
      rets := [];
      for i := 0 to |log|
        invariant rets == Returns(log[..i])
      {
        assert log[..i + 1][..i] == log[..i];
        if log[i].ReturnEvent? {
          rets := rets + [log[i].ret];
        }
      }
      assert log[..|log|] == log;
    }

    /** The returns made against `rent`, in log order. */
    method GetAllReturnsByRent(rent: Rent) returns (rets: seq<Return>)
      ensures rets == ReturnsFor(Returns(dataLayer.events), rent.id)
    {
      var all := GetAllReturns();
      rets := [];
      for i := 0 to |all|
        invariant rets == ReturnsFor(all[..i], rent.id)
      {
        assert all[..i + 1][..i] == all[..i];
        if all[i].rent == rent.id {
          rets := rets + [all[i]];
        }
      }
      assert all[..|all|] == all;
    }

    /** The copies of `rent` still out: its copies, with every copy of every return against it
        removed once. */
    method GetRentedCopiesOfRent(rent: Rent) returns (rented: seq<Id>)
      requires Distinct(rent.copies)
      ensures rented == Outstanding(dataLayer.events, rent)
    {
      rented := rent.copies;
      WithoutNothing(rent.copies);
      var rets := GetAllReturnsByRent(rent);
      for i := 0 to |rets|
        invariant rented == Without(rent.copies, ReturnedCopies(rets[..i]))
      {
        var gone := ReturnedCopies(rets[..i]);
        var copies := rets[i].copies;
        ghost var removed := gone;
        assert gone + Elements(copies[..0]) == gone;
        for j := 0 to |copies|
          invariant removed == gone + Elements(copies[..j])
          invariant rented == Without(rent.copies, removed)
        {
          RemoveReturnedStep(rent.copies, gone, copies, j);
          rented := RemoveFirst(rented, copies[j]);
          removed := gone + Elements(copies[..j + 1]);
        }
        assert copies[..|copies|] == copies;
        ReturnedCopiesStep(rets, i);
      }
      assert rets[..|rets|] == rets;
    }

    /** Appends every item of `b` to `a`. */
    static method MergeCollections<T>(a: seq<T>, b: seq<T>) returns (r: seq<T>)
      ensures r == a + b
    {
      r := a;
      for i := 0 to |b|
        invariant r == a + b[..i]
      {
        assert b[..i + 1] == b[..i] + [b[i]];
        r := r + [b[i]];
      }
      assert b[..|b|] == b;
    }

    /** Every copy out on loan: the outstanding copies of each open rent, merged in log order. */
    method GetRentedCopiesOfBooks() returns (rented: seq<Id>)
      requires Valid()
      ensures rented == RentedCopies(dataLayer.events)
      ensures forall c :: c in rented <==> IsRented(dataLayer.events, c)
    {
      var rents := GetAllRents();
      ghost var log := dataLayer.events;
      rented := [];
      for i := 0 to |rents|
        invariant rented == RentedCopiesOf(log, rents[..i])
      {
        RentedCopiesOfStep(log, rents, i);
        if IsOpen(rents[i]) {
          assert RentEvent(rents[i]) in log;
          var out := GetRentedCopiesOfRent(rents[i]);
          rented := MergeCollections(rented, out);
        }
      }
      assert rents[..|rents|] == rents;
    }

    /** Whether `copy` is out on loan under some open rent. */
    method IsCopyOfBookRented(copy: Id) returns (rented: bool)
      requires Valid()
      ensures rented <==> IsRented(dataLayer.events, copy)
    {
      var all := GetRentedCopiesOfBooks();
      rented := copy in all;
    }

    // -------------------------------------------------------------------------------------------
    // Catalogue and people.

    /** Deletes an author no book refers to. */
    method DeleteAuthor(author: Id) returns (res: Outcome<ServiceError>)
      modifies this
      requires Valid()
      ensures Valid()
      ensures res == (if AuthorHasBooks(old(dataLayer), author) then Fail(AuthorReferenced) else Pass)
      ensures dataLayer == if res.Pass? then old(dataLayer).(authors := RemoveAuthor(old(dataLayer).authors, author))
                           else old(dataLayer)
      ensures Inv(old(dataLayer)) ==> Inv(dataLayer)
    {
      if AuthorHasBooks(dataLayer, author) {
        return Fail(AuthorReferenced);
      }
      if Inv(dataLayer) {
        DeleteAuthorKeepsInv(dataLayer, author);
      }
      dataLayer := dataLayer.(authors := RemoveAuthor(dataLayer.authors, author));
      res := Pass;
    }

    /** Registers a book by an author the data layer holds; `bookId` is the id the new book gets. */
    method AddBook(bookId: Id, name: string, author: Id, description: string, bookType: BookType)
      returns (res: Outcome<ServiceError>)
      modifies this
      requires Valid()
      ensures Valid()
      ensures res == (if author in AuthorIds(old(dataLayer).authors) then Pass else Fail(AuthorNotFound))
      ensures dataLayer == if res.Pass?
                           then old(dataLayer).(books := old(dataLayer).books + [Book(bookId, name, author, description, bookType)])
                           else old(dataLayer)
      ensures Inv(old(dataLayer)) ==> Inv(dataLayer)
    {
      if author !in AuthorIds(dataLayer.authors) {
        return Fail(AuthorNotFound);
      }
      var b := Book(bookId, name, author, description, bookType);
      if Inv(dataLayer) {
        AddBookKeepsInv(dataLayer, b);
      }
      dataLayer := dataLayer.(books := dataLayer.books + [b]);
      res := Pass;
    }

    /** Deletes a book no copy refers to. */
    method DeleteBook(book: Id) returns (res: Outcome<ServiceError>)
      modifies this
      requires Valid()
      ensures Valid()
      ensures res == (if BookHasCopies(old(dataLayer), book) then Fail(BookReferenced) else Pass)
      ensures dataLayer == if res.Pass? then old(dataLayer).(books := RemoveBook(old(dataLayer).books, book))
                           else old(dataLayer)
      ensures Inv(old(dataLayer)) ==> Inv(dataLayer)
    {
      if BookHasCopies(dataLayer, book) {
        return Fail(BookReferenced);
      }
      if Inv(dataLayer) {
        DeleteBookKeepsInv(dataLayer, book);
      }
      dataLayer := dataLayer.(books := RemoveBook(dataLayer.books, book));
      res := Pass;
    }

    /** Deletes a copy that is not out on loan. */
    method DeleteCopyOfBook(copy: Id) returns (res: Outcome<ServiceError>)
      modifies this
      requires Valid()
      ensures Valid()
      ensures res == (if IsRented(old(dataLayer).events, copy) then Fail(CopyRented) else Pass)
      ensures dataLayer == if res.Pass? then old(dataLayer).(copies := RemoveCopy(old(dataLayer).copies, copy))
                           else old(dataLayer)
      ensures Inv(old(dataLayer)) ==> Inv(dataLayer)
    {
      var rented := IsCopyOfBookRented(copy);
      if rented {
        return Fail(CopyRented);
      }
      if Inv(dataLayer) {
        DeleteCopyKeepsInv(dataLayer, copy);
      }
      dataLayer := dataLayer.(copies := RemoveCopy(dataLayer.copies, copy));
      res := Pass;
    }

    /** Registers an employee with a new phone number and email; `id` is the new Guid and
        `emailValid` decides email syntax. */
    method AddEmployee(id: Id, name: string, surname: string, birthDate: Date, phoneNumber: string,
                       email: string, gender: Gender, dateOfEmployment: Date, emailValid: string -> bool)
      returns (res: Outcome<ServiceError>)
      modifies this
      requires Valid()
      ensures Valid()
      ensures res == EmployeeCheck(old(dataLayer), phoneNumber, email, emailValid)
      ensures dataLayer == if res.Pass?
        then old(dataLayer).(employees := old(dataLayer).employees
               + [Employee(Person(id, name, surname, birthDate, phoneNumber, email, gender), dateOfEmployment)])
        else old(dataLayer)
      ensures Inv(old(dataLayer)) ==> Inv(dataLayer)
      ensures EmployeeContactsUnique(old(dataLayer).employees) ==> EmployeeContactsUnique(dataLayer.employees)
    {
      if (exists e :: e in dataLayer.employees && e.person.phoneNumber == phoneNumber)
         || (exists e :: e in dataLayer.employees && e.person.email == email) {
        return Fail(DuplicatePerson);
      }
      if !emailValid(email) {
        return Fail(InvalidEmail);
      }
      if !ValidPhoneNumber(phoneNumber) {
        return Fail(InvalidPhone);
      }
      var e := Employee(Person(id, name, surname, birthDate, phoneNumber, email, gender), dateOfEmployment);
      if Inv(dataLayer) {
        AddPersonKeepsInv(dataLayer, e, Reader(e.person, 0, 0.0));
      }
      if EmployeeContactsUnique(dataLayer.employees) {
        AddEmployeeKeepsContactsUnique(dataLayer, e, emailValid);
      }
      dataLayer := dataLayer.(employees := dataLayer.employees + [e]);
      res := Pass;
    }

    /** Registers a reader with a zero balance, making the duplicate check as the source writes it
        (see `ReaderCheck`). */
    method AddReader(id: Id, name: string, surname: string, birthDate: Date, phoneNumber: string,
                     email: string, gender: Gender, dateOfRegistration: Date, emailValid: string -> bool)
      returns (res: Outcome<ServiceError>)
      modifies this
      requires Valid()
      ensures Valid()
      ensures res == ReaderCheck(old(dataLayer), phoneNumber, email, emailValid)
      ensures dataLayer == if res.Pass?
        then old(dataLayer).(readers := old(dataLayer).readers
               + [Reader(Person(id, name, surname, birthDate, phoneNumber, email, gender), dateOfRegistration, 0.0)])
        else old(dataLayer)
      ensures Inv(old(dataLayer)) ==> Inv(dataLayer)
    {
      if (exists r :: r in dataLayer.readers && r.person.phoneNumber == phoneNumber)
         || (exists e :: e in dataLayer.employees && e.person.email == email) {
        return Fail(DuplicatePerson);
      }
      if !emailValid(email) {
        return Fail(InvalidEmail);
      }
      if !ValidPhoneNumber(phoneNumber) {
        return Fail(InvalidPhone);
      }
      var r := Reader(Person(id, name, surname, birthDate, phoneNumber, email, gender), dateOfRegistration, 0.0);
      if Inv(dataLayer) {
        AddPersonKeepsInv(dataLayer, Employee(r.person, 0), r);
      }
      dataLayer := dataLayer.(readers := dataLayer.readers + [r]);
      res := Pass;
    }

    /** Deletes a reader with no open rent. */
    method DeleteReader(reader: Id) returns (res: Outcome<ServiceError>)
      modifies this
      requires Valid()
      ensures Valid()
      ensures res == (if HasOpenRent(old(dataLayer).events, reader) then Fail(ReaderHasRent) else Pass)
      ensures dataLayer == if res.Pass? then old(dataLayer).(readers := RemoveReader(old(dataLayer).readers, reader))
                           else old(dataLayer)
      ensures Inv(old(dataLayer)) ==> Inv(dataLayer)
    {
      var rents := GetAllCurrentRents();
      if exists r :: r in rents && r.reader == reader {
        return Fail(ReaderHasRent);
      }
      if Inv(dataLayer) {
        DeleteReaderKeepsInv(dataLayer, reader);
      }
      dataLayer := dataLayer.(readers := RemoveReader(dataLayer.readers, reader));
      res := Pass;
    }

    // -------------------------------------------------------------------------------------------
    // Rents and returns.

    /** Records a rent of `books` by `reader`, served by `employee`, at `now`; `rentId` is the new
        Guid. */
    method AddRent(rentId: Id, reader: Id, employee: Id, books: seq<Id>, now: Date)
      returns (res: Outcome<ServiceError>)
      modifies this
      requires Valid() && rentId !in EventIds(dataLayer.events)
      ensures Valid()
      ensures res == RentCheck(old(dataLayer), reader, employee, books)
      ensures dataLayer == if res.Pass? then WithRent(old(dataLayer), NewRent(rentId, reader, employee, books, now))
                           else old(dataLayer)
      ensures Inv(old(dataLayer)) ==> Inv(dataLayer)
    {
      if reader !in ReaderIds(dataLayer.readers) {
        return Fail(ReaderNotFound);
      }
      if employee !in EmployeeIds(dataLayer.employees) {
        return Fail(EmployeeNotFound);
      }
      ghost var d := dataLayer;
      for i := 0 to |books|
        invariant dataLayer == d
        invariant FirstCopyProblem(d, books) == FirstCopyProblem(d, books[i..])
      {
        FirstCopyProblemStep(d, books, i);
        if books[i] !in CopyIds(dataLayer.copies) {
          return Fail(CopyNotFound);
        }
        var rented := IsCopyOfBookRented(books[i]);
        if rented {
          return Fail(CopyAlreadyRented);
        }
      }
      var rents := GetAllCurrentRents();
      if exists r :: r in rents && r.reader == reader {
        return Fail(ReaderAlreadyRenting);
      }
      var nr := NewRent(rentId, reader, employee, books, now);
      AddRentKeepsWellFormed(dataLayer.events, nr);
      if Inv(dataLayer) {
        AddRentKeepsInv(dataLayer, reader, employee, books, rentId, now);
      }
      dataLayer := WithRent(dataLayer, nr);
      res := Pass;
    }

    /** Whether every copy of `books` is still out under `rent` (the copy loop of `AddReturn`). */
    method AllStillRented(rent: Rent, books: seq<Id>) returns (ok: bool)
      requires Distinct(rent.copies)
      ensures ok <==> forall k :: 0 <= k < |books| ==> books[k] in Outstanding(dataLayer.events, rent)
    {
      var i := 0;
      while i < |books|
        invariant 0 <= i <= |books|
        invariant forall k :: 0 <= k < i ==> books[k] in Outstanding(dataLayer.events, rent)
      {
        var out := GetRentedCopiesOfRent(rent);
        if books[i] !in out {
          return false;
        }
        i := i + 1;
      }
      return true;
    }

    /** Records the return of `books` against the rent with id `rentId` at `now`, closing the rent
        when nothing of it is still out; `returnId` is the new Guid. */
    method AddReturn(returnId: Id, rentId: Id, books: seq<Id>, now: Date)
      returns (res: Outcome<ServiceError>)
      modifies this
      requires Valid() && returnId !in EventIds(dataLayer.events)
      ensures Valid()
      ensures res == ReturnCheck(old(dataLayer), rentId, books)
      ensures res.Pass? ==> FindRent(Rents(old(dataLayer).events), rentId).Some?
                            && dataLayer == WithReturn(old(dataLayer), rentId, books, returnId, now)
      ensures res.Fail? ==> dataLayer == old(dataLayer)
      ensures Inv(old(dataLayer)) ==> Inv(dataLayer)
    {
      ghost var d := dataLayer;
      var rents := GetAllRents();
      var found := FindRent(rents, rentId);
      if found.None? {
        return Fail(RentNotFound);
      }
      var current := GetAllCurrentRents();
      if !exists r :: r in current && r.id == rentId {
        return Fail(RentClosed);
      }
      var rent := found.value;
      ReturnCheckOfCopies(d, rentId, books, rent);
      assert Distinct(rent.copies) by {
        assert RentEvent(rent) in d.events;
      }
      var allOut := AllStillRented(rent, books);
      if !allOut {
        return Fail(CopyNotOutstanding);
      }
      if Inv(d) {
        AddReturnKeepsInv(d, rentId, books, returnId, now);
      }
      var t := Return(returnId, now, books, rentId);
      AddReturnKeepsWellFormed(d.events, rent, t, now);
      dataLayer := dataLayer.(events := dataLayer.events + [ReturnEvent(t)]);
      var out := GetRentedCopiesOfRent(rent);
      if |out| == 0 {
        dataLayer := dataLayer.(events := CloseRent(dataLayer.events, rentId, now));
      }
      assert dataLayer == WithReturn(d, rentId, books, returnId, now);
      res := Pass;
    }
  }
}
