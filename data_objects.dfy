/** The entities of the library's data layer, as values. Every entity is identified by its id
    (a `System.Guid` in the source), and two entities are equal when their ids are. */
module DataObjects {
  import opened Common

  /** A `System.Guid`. */
  type Id = int

  /** A `System.DateTime`, as a tick count; a larger value is a later moment. */
  type Date = int

  /** The `Gender` enumeration is not part of this model; its value is carried as a code. */
  type Gender = int

  datatype Author = Author(id: Id, name: string, surname: string)

  datatype BookType = Action | Classics | Detective | Fantasy | Horror | Romance | Biographie | Novel

  /** A catalogued title; `author` is the id of its `Author`. */
  datatype Book = Book(id: Id, name: string, author: Id, description: string, bookType: BookType)

  /** One physical copy of a `Book`; `pricePerDay` is a C# `double`, only its sign is checked. */
  datatype CopyOfBook = CopyOfBook(id: Id, book: Id, purchaseDate: Date, pricePerDay: real)

  /** The fields that `Reader` and `Employee` inherit from `Person`. */
  datatype Person = Person(
    id: Id, name: string, surname: string, birthDate: Date,
    phoneNumber: string, email: string, gender: Gender)

  datatype Reader = Reader(person: Person, dateOfRegistration: Date, balance: real)

  datatype Employee = Employee(person: Person, dateOfEmployment: Date)

  /** A loan of some copies to a reader, recorded by an employee. `copies` are the keys of the
      rent's copy dictionary (`rent.Book.Keys`). `dateOfReturn` is `None` while the rent is open:
      it stands for the source's `DateTime.MinValue` sentinel. */
  datatype Rent = Rent(
    id: Id, reader: Id, employee: Id, copies: seq<Id>,
    dateOfRent: Date, dateOfReturn: Option<Date>)

  /** A (possibly partial) return of copies against the rent whose id is `rent`. */
  datatype Return = Return(id: Id, date: Date, copies: seq<Id>, rent: Id)

  /** An entry of the append-only event log. */
  datatype Event = RentEvent(rent: Rent) | ReturnEvent(ret: Return)

  function EventId(e: Event): Id {
    match e
    case RentEvent(r) => r.id
    case ReturnEvent(t) => t.id
  }

  predicate IsOpen(r: Rent) {
    r.dateOfReturn.None?
  }
}
