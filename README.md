# Library circulation core, modelled in Dafny

This project models two parts of a small library system.

**The data service** (`BLL/DataService.cs`) keeps an append-only event log of `Rent` and `Return` events. It decides availability by replaying that log:
- The copies of a rent still out are the rent's copies minus every copy named by a return against it.
- A copy is rented when it is still out under some rent that is open. A rent is open while its `DateOfReturn` is unset.

Before appending a `Rent` or a `Return`, the service makes its checks in a fixed order. It closes a rent when its last copy comes back. It refuses to delete an author, book, copy or reader that something still depends on. It refuses to register an employee whose phone number or email clashes with another employee's, or whose phone number is not nine characters long. For a reader, the phone number is checked against other readers but the email only against employees, so two readers can share an email.

**The copy-of-book table** (`CopyOfBooksCollection.cs`) is a list of copies with unique ids. It supports `Add`, `Delete`, `Get`, `GetAll` and a field-wise `Update`.

The modules:
- **`Common`** holds `Option`, `Outcome` (pass, or fail with a reason) and `Result`.
- **`Seqs`** holds list operations on sequences:
  - `RemoveFirst` is `List.Remove`.
  - `Without` removes every member of a set.
  - `Dedup` gives the keys of a dictionary built from a list.
  - `FirstIndex` and `RemoveFirstWhere` are `List.Find` and removal by id.
- **`DataObjects`** holds the entities as datatypes with integer ids:
  - authors, books, copies, people, readers and employees;
  - the `Rent` and `Return` events.
  - `DateOfReturn` is an `Option<Date>`, and `None` is the `DateTime.MinValue` sentinel.
- **`EventLog`** gives the meaning of every replay of the log, as functions:
  - `Rents`, `Returns` and `CurrentRents`;
  - `ReturnsFor` (returns against one rent) and `Outstanding` (one rent's copies still out);
  - `RentedCopies` (every copy out on loan).
  
  It also holds the lemmas about how these change when an event is appended or a rent is closed.
- **`Store`** models the data layer (`IDataLayerAPI`) as a value of six sequences. It holds:
  - the ordered checks of each operation (`RentCheck`, `ReturnCheck`, `EmployeeCheck`, `ReaderCheck`);
  - the data layer each successful operation produces (`WithRent`, `WithReturn`);
  - the invariants the operations keep (`Inv`), with their preservation proofs.
- **`BLL`** holds the class `DataService`, whose one field is the data layer:
  - every query is the source's loop, proved equal to its `EventLog` function;
  - every change is proved to make the source's checks, to produce the `Store` data layer, and to keep `Inv`.
- **`DL`** holds the class `CopyOfBooksCollection`, with its list as a field that `Add`, `Delete` and `Update` replace.

`Inv` is the set of invariants the service keeps:
- every return refers to a recorded rent;
- a reader has at most one open rent;
- no copy is out under two open rents;
- a closed rent has nothing outstanding;
- every copy still out under an open rent exists, and every open rent's reader exists;
- books refer to existing authors.

Every log also satisfies `WellFormed`, which the class keeps as `Valid()`: event ids are distinct and a rent's copies are distinct.

## Model

| member | source | states |
|---|---|---|
| BLL.DataService.constructor | BLL/DataService.cs:16-19 | the service starts on the given data layer |
| BLL.DataService.GetAllRents | BLL/DataService.cs:227-238 | the result is `Rents(log)`: exactly the log's `Rent` events, in log order |
| BLL.DataService.GetAllCurrentRents | BLL/DataService.cs:240-251 | copying every rent and then removing each closed one gives `CurrentRents(log)`: exactly the rents of the log that are still open, in log order |
| BLL.DataService.GetAllReturns | BLL/DataService.cs:284-295 | the result is `Returns(log)`: exactly the log's `Return` events, in log order |
| BLL.DataService.GetAllReturnsByRent | BLL/DataService.cs:297-308 | the result is the returns made against the rent's id, in log order |
| BLL.DataService.GetRentedCopiesOfRent | BLL/DataService.cs:324-336 | starting from the rent's copies and removing each copy of each return against it gives `Outstanding(log, rent)`: the copies not named by any return against the rent |
| BLL.DataService.MergeCollections | BLL/DataService.cs:338-345 | appending the second collection item by item gives the two concatenated |
| BLL.DataService.GetRentedCopiesOfBooks | BLL/DataService.cs:310-322 | the merged outstanding copies of the open rents equal `RentedCopies(log)`; a copy is in the result iff it is rented |
| BLL.DataService.IsCopyOfBookRented | BLL/DataService.cs:99-103 | true iff some open rent still has the copy out |
| BLL.DataService.DeleteAuthor | BLL/DataService.cs:28-33 | fails with nothing changed iff some book refers to the author; otherwise removes the author; keeps `Inv` |
| BLL.DataService.AddBook | BLL/DataService.cs:52-57 | fails with nothing changed iff the author is not stored; otherwise appends the book; keeps `Inv` |
| BLL.DataService.DeleteBook | BLL/DataService.cs:59-64 | fails with nothing changed iff some copy refers to the book; otherwise removes the book; keeps `Inv` |
| BLL.DataService.DeleteCopyOfBook | BLL/DataService.cs:90-97 | fails with nothing changed iff the copy is rented; otherwise removes it; keeps `Inv` |
| BLL.DataService.AddEmployee | BLL/DataService.cs:122-132 | the outcome is `EmployeeCheck` (a duplicate phone or email among employees, then the email, then the phone length); on success appends the employee; keeps `Inv`, and keeps employees' phones and emails unique |
| BLL.DataService.AddReader | BLL/DataService.cs:156-170 | the outcome is `ReaderCheck` (as written: the phone against readers, the email against employees), then the email, then the phone length; on success appends a reader with balance 0; keeps `Inv` |
| BLL.DataService.DeleteReader | BLL/DataService.cs:172-179 | fails with nothing changed iff some current rent belongs to the reader; otherwise removes the reader; keeps `Inv` |
| BLL.DataService.AddRent | BLL/DataService.cs:198-225 | the outcome is `RentCheck`, with the first failing check in source order; a failure appends nothing; success appends exactly one open `Rent` of the deduplicated copies; keeps `WellFormed` and `Inv` |
| BLL.DataService.AllStillRented | BLL/DataService.cs:270-276 | true iff every listed copy is outstanding under the rent |
| BLL.DataService.AddReturn | BLL/DataService.cs:260-282 | the outcome is `ReturnCheck` (rent not recorded, rent closed, a copy not outstanding); a failure changes nothing; success appends one `Return` and closes the rent iff nothing of it is then outstanding; keeps `WellFormed` and `Inv` |
| Store.RentCheckPasses | BLL/DataService.cs:198-223 | a rent check passes iff all of these hold: the reader and the employee exist, every listed copy exists and is not rented, and the reader has no open rent |
| Store.FirstCopyProblem | BLL/DataService.cs:208-218 | none iff no listed copy has a problem; otherwise it is the problem of the first copy in list order that has one |
| Store.AddRentKeepsInv | BLL/DataService.cs:198-225 | a successful rent keeps every invariant: at most one open rent per reader, no copy in two open rents, and the rest of `Inv` |
| Store.AddRentKeepsWellFormed | BLL/DataService.cs:224 | appending a rent with a fresh id and distinct copies keeps event ids and rent copies distinct |
| Store.AddRentRentsCopies | BLL/DataService.cs:214-224 | after a successful rent, every copy it lists is rented |
| Store.AddRentOnlyOpenRent | BLL/DataService.cs:219-224 | after a successful rent, the new rent is the reader's only open rent, and any further rent request by the reader is refused |
| Store.NewRentKeepsDistinctList | BLL/DataService.cs:224 | a rent request listing each copy once is recorded open, with exactly the listed copies in the listed order |
| Store.NewRentKeepsCopiesApart | BLL/DataService.cs:214-217 | a copy outstanding in the new rent is outstanding in no other open rent |
| Store.ReturnCheckFacts | BLL/DataService.cs:262-276 | a passing return check found a recorded, open rent with that id, under which every returned copy is outstanding |
| Store.ReturnCheckOfCopies | BLL/DataService.cs:270-276 | once the rent is found and open, the check passes iff every copy is outstanding, and otherwise fails with `CopyNotOutstanding` |
| Store.AddReturnKeepsInv | BLL/DataService.cs:260-282 | a successful return, with the close that may follow it, keeps every invariant |
| Store.AddReturnKeepsWellFormed | BLL/DataService.cs:277-281 | appending a return with a fresh id, and closing a rent, keep event ids and rent copies distinct |
| Store.AppendReturnKeepsInv | BLL/DataService.cs:277 | appending a return against an open rent keeps every invariant |
| Store.CloseKeepsInv | BLL/DataService.cs:278-281 | closing a rent with nothing outstanding keeps every invariant |
| Store.ReturnedCopyNotRented | BLL/DataService.cs:277-281 | after a successful return, no returned copy is rented under any rent |
| Store.ReturnClosesIffAllReturned | BLL/DataService.cs:277-281 | after a successful return, the rent is still open iff some of its copies are still out; when it closes, its `DateOfReturn` is `now` |
| Store.ReturnTwiceRejected | BLL/DataService.cs:266-276 | once a copy has been returned, returning it again against the same rent is refused |
| Store.ClosedRentRejects | BLL/DataService.cs:266-269 | a return against a rent with no open rent of that id fails |
| Store.NotOutstandingRejects | BLL/DataService.cs:270-276 | a return of a copy that is not outstanding under the rent fails |
| Store.DeleteAuthorKeepsInv | BLL/DataService.cs:28-33 | deleting an author no book refers to keeps `Inv` |
| Store.DeleteBookKeepsInv | BLL/DataService.cs:59-64 | deleting a book keeps `Inv` |
| Store.DeleteCopyKeepsInv | BLL/DataService.cs:90-97 | deleting a copy that is not rented keeps `Inv` |
| Store.DeleteReaderKeepsInv | BLL/DataService.cs:172-179 | deleting a reader with no open rent keeps `Inv` |
| Store.AddBookKeepsInv | BLL/DataService.cs:52-57 | adding a book whose author exists keeps `Inv` |
| Store.AddPersonKeepsInv | BLL/DataService.cs:122-170 | appending an employee or a reader keeps `Inv` |
| Store.AddEmployeeKeepsContactsUnique | BLL/DataService.cs:122-132 | an employee that passes the check keeps employees' phones and emails pairwise distinct, has a nine-character phone and an accepted email |
| Store.ReaderCheckAdmitsDuplicateReaderEmail | BLL/DataService.cs:159 | the reader check as written accepts a reader whose email another reader already has |
| Store.SameIdSameRent | BLL/DataService.cs:262-266 | in a well-formed log, two rents with the same id are the same rent, so checking for a rent by id is checking for the rent |
| Store.FindRent | BLL/DataService.cs:262 | a found rent is in the list and has the id; none is found iff no rent has the id |
| EventLog.Rents | BLL/DataService.cs:227-238 | its members are exactly the rents of the log's `Rent` events |
| EventLog.Returns | BLL/DataService.cs:284-295 | its members are exactly the returns of the log's `Return` events |
| EventLog.CurrentRents | BLL/DataService.cs:240-251 | its members are exactly the log's rents whose `DateOfReturn` is unset |
| EventLog.ReturnsFor | BLL/DataService.cs:297-308 | its members are exactly the returns against the rent's id |
| EventLog.Outstanding | BLL/DataService.cs:324-336 | a copy is outstanding iff it is one of the rent's copies and no return against the rent names it; distinct copies stay distinct |
| EventLog.RentedCopies | BLL/DataService.cs:310-322 | a copy is in it iff it is rented |
| EventLog.RentsAppend | BLL/DataService.cs:227-238 | filtering rents distributes over concatenation of logs |
| EventLog.ReturnsAppend | BLL/DataService.cs:284-295 | filtering returns distributes over concatenation of logs |
| EventLog.CurrentRentsAppend | BLL/DataService.cs:240-251 | filtering open rents distributes over concatenation of logs |
| EventLog.OutstandingAfterRent | BLL/DataService.cs:224 | appending a rent changes no rent's outstanding copies |
| EventLog.OutstandingAfterReturn | BLL/DataService.cs:277 | appending a return removes exactly its copies from the outstanding copies of its own rent, and changes no other rent's |
| EventLog.OutstandingAfterClose | BLL/DataService.cs:280 | closing a rent changes no rent's outstanding copies |
| EventLog.SplitReturnSameOutstanding | BLL/DataService.cs:324-336 | returning copies in two returns in either order, or in one combined return, leaves the same copies outstanding |
| EventLog.CloseRentMember | BLL/DataService.cs:280 | every rent of the log after a close is an old rent, closed if it has the closed id |
| EventLog.CloseRentKeeps | BLL/DataService.cs:280 | every old rent appears after the close, closed if it has the closed id |
| Seqs.RemoveFirst | BLL/DataService.cs:332 | `List.Remove`: removing an absent item changes nothing; otherwise the length drops by one and only that item can disappear |
| Seqs.RemoveFirstWithout | BLL/DataService.cs:328-334 | removing a copy once from the copies minus a set equals removing the set with the copy added |
| Seqs.RemoveFirstAfter | BLL/DataService.cs:243-248 | removing an item that its prefix does not hold takes out exactly the item after the prefix |
| Seqs.Dedup | BLL/DataService.cs:326 | a rent's copies are distinct and are exactly the listed copies |
| Seqs.DedupOfDistinct | BLL/DataService.cs:326 | a list without duplicates keeps its elements and their order |
| DL.CopyOfBooksCollection.constructor | TPR_Zadanie_Biblioteka/Collections/CopyOfBooksCollection.cs:14-17 | the table starts empty |
| DL.CopyOfBooksCollection.Add | TPR_Zadanie_Biblioteka/Collections/CopyOfBooksCollection.cs:19-34 | the outcome is `AddCheck` (a duplicate id, then a future purchase date, then a negative price); a failure leaves the list unchanged, and success appends the copy at the end; ids stay unique |
| DL.CopyOfBooksCollection.Delete | TPR_Zadanie_Biblioteka/Collections/CopyOfBooksCollection.cs:36-39 | the list loses the first copy with the object's id; ids stay unique |
| DL.CopyOfBooksCollection.Get | TPR_Zadanie_Biblioteka/Collections/CopyOfBooksCollection.cs:41-44 | none iff no copy has the id; otherwise the first copy with the id |
| DL.CopyOfBooksCollection.GetAll | TPR_Zadanie_Biblioteka/Collections/CopyOfBooksCollection.cs:46-49 | the table itself, element by element, in insertion order (the order `Add` keeps by appending at the end and `Delete` keeps by `RemoveSplits`); a lookup by id in it agrees with `Get` |
| DL.CopyOfBooksCollection.Update | TPR_Zadanie_Biblioteka/Collections/CopyOfBooksCollection.cs:51-83 | a missing id, an unknown option and a value of the wrong type each throw and change nothing; otherwise only the found copy changes, through `SetField`; ids stay unique |
| DL.SetField | TPR_Zadanie_Biblioteka/Collections/CopyOfBooksCollection.cs:69-82 | an unknown option is `InvalidOption`; success iff the value's type fits the option; the id and the fields the option does not select are kept, and the selected one takes the new value |
| DL.AddKeepsUniqueIds | TPR_Zadanie_Biblioteka/Collections/CopyOfBooksCollection.cs:19-34 | a successful add keeps ids pairwise distinct |
| DL.AddThenFind | TPR_Zadanie_Biblioteka/Collections/CopyOfBooksCollection.cs:19-44 | after a successful add, looking up the new id finds the added copy, and every other lookup is unchanged |
| DL.RemoveSplits | TPR_Zadanie_Biblioteka/Collections/CopyOfBooksCollection.cs:36-39 | a delete with no matching copy changes nothing; otherwise it removes exactly the first match and keeps the rest in order |
| DL.RemoveKeepsUniqueIds | TPR_Zadanie_Biblioteka/Collections/CopyOfBooksCollection.cs:36-39 | a delete keeps ids pairwise distinct |
| DL.DeleteThenFind | TPR_Zadanie_Biblioteka/Collections/CopyOfBooksCollection.cs:36-44 | after a delete, the id is not found and lookups of other ids are unchanged |
| DL.FindInRemoved | TPR_Zadanie_Biblioteka/Collections/CopyOfBooksCollection.cs:36-44 | removing one position does not change the lookup of another id |
| DL.UpdateKeepsUniqueIds | TPR_Zadanie_Biblioteka/Collections/CopyOfBooksCollection.cs:51-83 | a successful update keeps ids pairwise distinct |
| DL.UpdateThenFind | TPR_Zadanie_Biblioteka/Collections/CopyOfBooksCollection.cs:64-82 | an update fails iff the id is absent or the field cannot be set; on success the length is unchanged, the id's copy is the old one with the field set, and other ids' copies are untouched |
| DL.UpdateAdmitsNegativePrice | TPR_Zadanie_Biblioteka/Collections/CopyOfBooksCollection.cs:77-78 | an update can give a stored copy a negative price that `Add` would refuse, because update does not re-apply add's checks |

## Left out

- `IsValidEmail` (BLL/DataService.cs:347-358) relies on `System.Net.Mail.MailAddress`, so it is the parameter `emailValid` of `AddEmployee` and `AddReader`.
- `Guid.NewGuid()` and `DateTime.Now` are method parameters: the new id, and `now`.
  - A new id is required to be absent from the log's event ids.
  - `AddReturn` uses one `now` for both the `Return` (:277) and the closing date (:280), though the source reads the clock twice.
  - `CopyOfBooksCollection.Add` takes `now` for the date check at :25.
- AddReturn: the source mutates the `Rent` object it is handed (:280), and that object is the one stored in the log. The model takes the rent's id instead and closes the logged rent with that id (`CloseRent`). The checks use the first logged rent with that id, which is the only one in a well-formed log. An object handed in that is a stale copy differing from the logged rent in other fields is not modelled.
- Equality of entities is id equality: `Contains` and `Remove` on readers, employees, copies and rents compare ids. One exception is `GetAllCurrentRents`, which compares whole rent values; in a well-formed log that is the same thing.
- Rent's constructor is not part of this model. A rent's copies (`rent.Book.Keys`, :326) are modelled as the listed copies with duplicates dropped (`Dedup`).
- The data layer behind `IDataLayerAPI` is not part of this model.
  - Its deletions remove the first entity with the given id.
  - Its additions append.
  - Its `Get*`, `Find*` and `Update*` calls, and the service's own pass-throughs to them (`AddAuthor`, `GetAuthor`, `FindAuthor`, `GetBook`, `FindBook`, `GetCopyOfBook`, `FindCopyOfBook`, `DeleteEmployee`, `UpdateEmployee`, `UpdateReader`, `FindReader`, `FindEvent`, the `GetAll*` of entities) are left out: each only forwards to that unseen store.
- `AddCopyOfBook` (BLL/DataService.cs:83-88) is left out: its only check is against a `null` book (:85), and the model has no null books, because a copy refers to its book by id.
- AddBook: the new book's id is a parameter. The `Book` constructor at BLL/DataService.cs:56 does not match the shown `Book` class, which takes a string id and five arguments.
- AddReader: the duplicate check compares the email against employees rather than readers (:159). It is modelled as written, and `ReaderCheckAdmitsDuplicateReaderEmail` shows the consequence. Reader emails are therefore not proved unique.
- `EmployeeCheck` and `ReaderCheck` count a phone number's length in characters. This equals the source's `string.Length` (UTF-16 code units) for every phone number made of digits.
- The `Consts` values are not part of this model. The option codes of `CopyOfBooksCollection.Update` are taken to be 0, 1 and 2.
- CopyOfBooksCollection.Update and the aliasing of copies:
  - The found copy is replaced in the list by a new value rather than mutated, so other references to the same object are not modelled.
  - A `newValue` of the wrong type throws (`InvalidCast`).
  - A null `newValue` is not modelled.
- `PricePerDay` is a `real` rather than a `double`, and its only check is its sign. `Reader.Balance` is set to 0 and never used.
- The `DataObjects` classes' serialization, `ToString` and setters are not modelled.
