/** The data layer's table of copies of books: a list of copies, kept in insertion order, with
    unique ids, that `Add`, `Delete` and `Update` change in place. */
module DL {
  import opened Common
  import opened Seqs
  import opened DataObjects

  /** The option codes `Update` switches on (the `Consts` class, whose values are assumed to be
      these). */
  const CopyOfBookBook: int := 0
  const CopyOfBookPurchaseDate: int := 1
  const CopyOfBookPricePerDay: int := 2

  /** The `Object` handed to `Update`: a book, a date or a price. */
  datatype FieldValue = BookValue(book: Book) | DateValue(date: Date) | PriceValue(price: real)

  /** The reasons the table throws. */
  datatype CollectionError =
    | DuplicateId    // "Copy of book with this ID already exists!"
    | FutureDate     // "Invalid purchase date! (date from future)"
    | NegativePrice  // "Price cannot be negative!"
    | NotFound       // "Copy of book with this ID doesn't exist"
    | InvalidOption  // "Invalid option!"
    | InvalidCast    // the cast of `newValue` to the field's type fails

  /** No two copies in the table share an id. */
  ghost predicate UniqueIds(s: seq<CopyOfBook>) {
    forall i, j :: 0 <= i < j < |s| ==> s[i].id != s[j].id
  }

  /** The position of the first copy with id `id` (`List.Find`'s match). */
  function IndexOf(s: seq<CopyOfBook>, id: Id): Option<nat> {
    FirstIndex(s, (c: CopyOfBook) => c.id == id)
  }

  /** The first copy with id `id`, if any. */
  function Find(s: seq<CopyOfBook>, id: Id): Option<CopyOfBook> {
    match IndexOf(s, id)
    case None => None
    case Some(k) => Some(s[k])
  }

  /** The checks of `Add`, in order: a new id, a purchase date not after `now`, a price that is
      not negative. */
  function AddCheck(s: seq<CopyOfBook>, obj: CopyOfBook, now: Date): Outcome<CollectionError> {
    if Find(s, obj.id).Some? then Fail(DuplicateId)
    else if obj.purchaseDate > now then Fail(FutureDate)
    else if obj.pricePerDay < 0.0 then Fail(NegativePrice)
    else Pass
  }

  /** The table after `Delete`: the first copy with the id leaves, the rest keep their order. */
  function Remove(s: seq<CopyOfBook>, id: Id): seq<CopyOfBook> {
    RemoveFirstWhere(s, (c: CopyOfBook) => c.id == id)
  }

  /** One field of `c` set from `v` as `option` selects, or the exception `Update` throws. */
  function SetField(c: CopyOfBook, option: int, v: FieldValue): (r: Result<CopyOfBook, CollectionError>)
    ensures option != CopyOfBookBook && option != CopyOfBookPurchaseDate && option != CopyOfBookPricePerDay
            ==> r == Err(InvalidOption)
    ensures r.Ok? <==> || (option == CopyOfBookBook && v.BookValue?)
                       || (option == CopyOfBookPurchaseDate && v.DateValue?)
                       || (option == CopyOfBookPricePerDay && v.PriceValue?)
    ensures r.Ok? ==> r.value.id == c.id
    ensures r.Ok? ==> (r.value.book == c.book <== option != CopyOfBookBook)
                      && (r.value.purchaseDate == c.purchaseDate <== option != CopyOfBookPurchaseDate)
                      && (r.value.pricePerDay == c.pricePerDay <== option != CopyOfBookPricePerDay)
    ensures r.Ok? && option == CopyOfBookBook ==> r.value.book == v.book.id
    ensures r.Ok? && option == CopyOfBookPurchaseDate ==> r.value.purchaseDate == v.date
    ensures r.Ok? && option == CopyOfBookPricePerDay ==> r.value.pricePerDay == v.price
  {
    if option == CopyOfBookBook then
      if v.BookValue? then Ok(c.(book := v.book.id)) else Err(InvalidCast)
    else if option == CopyOfBookPurchaseDate then
      if v.DateValue? then Ok(c.(purchaseDate := v.date)) else Err(InvalidCast)
    else if option == CopyOfBookPricePerDay then
      if v.PriceValue? then Ok(c.(pricePerDay := v.price)) else Err(InvalidCast)
    else Err(InvalidOption)
  }

  /** The table after `Update`, or the exception it throws: the id must be present, then the
      option and the value must fit. */
  function Updated(s: seq<CopyOfBook>, id: Id, option: int, v: FieldValue)
    : Result<seq<CopyOfBook>, CollectionError>
  {
    match IndexOf(s, id)
    case None => Err(NotFound)
    case Some(k) =>
      match SetField(s[k], option, v)
      case Err(e) => Err(e)
      case Ok(c) => Ok(s[k := c])
  }

  class CopyOfBooksCollection {
    var copiesOfBooks: seq<CopyOfBook>

    ghost predicate Valid()
      reads this
    {
      UniqueIds(copiesOfBooks)
    }

    constructor()
      ensures Valid() && copiesOfBooks == []
    {
      copiesOfBooks := [];
    }

    /** Appends `obj` unless its id is taken, its purchase date is after `now` or its price is
        negative. */
    method Add(obj: CopyOfBook, now: Date) returns (res: Outcome<CollectionError>)
      modifies this
      requires Valid()
      ensures Valid()
      ensures res == AddCheck(old(copiesOfBooks), obj, now)
      ensures copiesOfBooks == if res.Pass? then old(copiesOfBooks) + [obj] else old(copiesOfBooks)
    {
      if Find(copiesOfBooks, obj.id).Some? {
        return Fail(DuplicateId);
      }
      if obj.purchaseDate > now {
        return Fail(FutureDate);
      }
      if obj.pricePerDay < 0.0 {
        return Fail(NegativePrice);
      }
      AddKeepsUniqueIds(copiesOfBooks, obj, now);
      copiesOfBooks := copiesOfBooks + [obj];
      res := Pass;
    }

    /** Removes the copy equal to `obj` (the first with its id); nothing happens if there is
        none. */
    method Delete(obj: CopyOfBook)
      modifies this
      requires Valid()
      ensures Valid()
      ensures copiesOfBooks == Remove(old(copiesOfBooks), obj.id)
    {
      RemoveKeepsUniqueIds(copiesOfBooks, obj.id);
      copiesOfBooks := Remove(copiesOfBooks, obj.id);
    }

    /** The first copy with id `id`, or none. */
    function Get(id: Id): (r: Option<CopyOfBook>)
      reads this
      ensures r.None? <==> forall c :: c in copiesOfBooks ==> c.id != id
      ensures r.Some? ==> exists k :: 0 <= k < |copiesOfBooks| && copiesOfBooks[k] == r.value
                                      && r.value.id == id
                                      && forall j :: 0 <= j < k ==> copiesOfBooks[j].id != id
    {
      Find(copiesOfBooks, id)
    }

    /** The table itself, in insertion order. */
    function GetAll(): (r: seq<CopyOfBook>)
      reads this
      ensures |r| == |copiesOfBooks|
      ensures forall k :: 0 <= k < |r| ==> r[k] == copiesOfBooks[k]
      ensures forall id :: Find(r, id) == Get(id)
    {
      copiesOfBooks
    }

    /** Sets one field of the copy with id `id`, chosen by `option`, to `newValue`. */
    method Update(id: Id, option: int, newValue: FieldValue) returns (res: Outcome<CollectionError>)
      modifies this
      requires Valid()
      ensures Valid()
      ensures res == if Updated(old(copiesOfBooks), id, option, newValue).Ok? then Pass
                     else Fail(Updated(old(copiesOfBooks), id, option, newValue).error)
      ensures copiesOfBooks == if res.Pass? then Updated(old(copiesOfBooks), id, option, newValue).value
                               else old(copiesOfBooks)
    {
      var k := IndexOf(copiesOfBooks, id);
      if k.None? {
        return Fail(NotFound);
      }
      var updating := copiesOfBooks[k.value];
      if option == CopyOfBookBook {
        if !newValue.BookValue? {
          return Fail(InvalidCast);
        }
        updating := updating.(book := newValue.book.id);
      } else if option == CopyOfBookPurchaseDate {
        if !newValue.DateValue? {
          return Fail(InvalidCast);
        }
        updating := updating.(purchaseDate := newValue.date);
      } else if option == CopyOfBookPricePerDay {
        if !newValue.PriceValue? {
          return Fail(InvalidCast);
        }
        updating := updating.(pricePerDay := newValue.price);
      } else {
        return Fail(InvalidOption);
      }
      UpdateKeepsUniqueIds(copiesOfBooks, id, option, newValue);
      copiesOfBooks := copiesOfBooks[k.value := updating];
      res := Pass;
    }
  }

  // ---------------------------------------------------------------------------------------------
  // What the operations promise.

  /** A successful `Add` keeps ids unique. */
  lemma AddKeepsUniqueIds(s: seq<CopyOfBook>, obj: CopyOfBook, now: Date)
    requires UniqueIds(s) && AddCheck(s, obj, now) == Pass
    ensures UniqueIds(s + [obj])
  {
    var s' := s + [obj];
    forall i, j | 0 <= i < j < |s'| ensures s'[i].id != s'[j].id {
      if j == |s| {
        assert s'[i] == s[i];
      }
    }
  }

  /** After a successful `Add`, looking the new id up finds the added copy, and every other
      lookup is unchanged. */
  lemma AddThenFind(s: seq<CopyOfBook>, obj: CopyOfBook, now: Date, id: Id)
    requires AddCheck(s, obj, now) == Pass
    ensures Find(s + [obj], id) == if id == obj.id then Some(obj) else Find(s, id)
  {
    var s' := s + [obj];
    var p := (c: CopyOfBook) => c.id == id;
    if IndexOf(s, id).Some? {
      var k := IndexOf(s, id).value;
      assert forall j :: 0 <= j <= k ==> s'[j] == s[j];
      assert IndexOf(s', id) == Some(k) by {
        assert p(s'[k]);
        assert forall j :: 0 <= j < k ==> !p(s'[j]);
        FirstIndexIs(s', p, k);
      }
    } else {
      assert forall j :: 0 <= j < |s| ==> s'[j] == s[j];
      if id == obj.id {
        FirstIndexIs(s', p, |s|);
      }
    }
  }

  /** The first index satisfying `p` is `k` when `p(s[k])` holds and no earlier element satisfies
      it. */
  lemma FirstIndexIs<T>(s: seq<T>, p: T -> bool, k: nat)
    requires k < |s| && p(s[k]) && forall j :: 0 <= j < k ==> !p(s[j])
    ensures FirstIndex(s, p) == Some(k)
  {
  }

  /** `Delete` takes out exactly the first copy with the id and keeps the others in order; with
      no such copy it changes nothing. */
  lemma RemoveSplits(s: seq<CopyOfBook>, id: Id)
    ensures IndexOf(s, id).None? ==> Remove(s, id) == s
    ensures IndexOf(s, id).Some? ==>
              var k := IndexOf(s, id).value;
              s[k].id == id && Remove(s, id) == s[..k] + s[k + 1..]
  {
  }

  lemma RemoveKeepsUniqueIds(s: seq<CopyOfBook>, id: Id)
    requires UniqueIds(s)
    ensures UniqueIds(Remove(s, id))
  {
    if IndexOf(s, id).Some? {
      var k := IndexOf(s, id).value;
      var r := Remove(s, id);
      forall i, j | 0 <= i < j < |r| ensures r[i].id != r[j].id {
        var i', j' := if i < k then i else i + 1, if j < k then j else j + 1;
        assert r[i] == s[i'] && r[j] == s[j'];
      }
    }
  }

  /** After `Delete` on a table with unique ids, the id is gone and every other lookup is
      unchanged. */
  lemma DeleteThenFind(s: seq<CopyOfBook>, id: Id, other: Id)
    requires UniqueIds(s)
    ensures Find(Remove(s, id), id).None?
    ensures other != id ==> Find(Remove(s, id), other) == Find(s, other)
  {
    var r := Remove(s, id);
    if IndexOf(s, id).Some? {
      var k := IndexOf(s, id).value;
      assert r == s[..k] + s[k + 1..];
      forall c | c in r ensures c.id != id {
        var i :| 0 <= i < |r| && r[i] == c;
        var i' := if i < k then i else i + 1;
        assert r[i] == s[i'];
      }
      if other != id {
        FindInRemoved(s, k, other);
      }
    }
  }

  /** Looking up an id other than the removed copy's, before and after removing position `k`. */
  lemma FindInRemoved(s: seq<CopyOfBook>, k: nat, other: Id)
    requires UniqueIds(s) && k < |s| && s[k].id != other
    ensures Find(s[..k] + s[k + 1..], other) == Find(s, other)
  {
    var r := s[..k] + s[k + 1..];
    var p := (c: CopyOfBook) => c.id == other;
    match IndexOf(s, other)
    case None =>
      assert forall c :: c in r ==> c in s;
    case Some(m) =>
      var m' := if m < k then m else m - 1;
      assert r[m'] == s[m];
      assert forall j :: 0 <= j < m' ==> r[j] == (if j < k then s[j] else s[j + 1]);
      FirstIndexIs(r, p, m');
  }

  /** A successful `Update` keeps ids unique. */
  lemma UpdateKeepsUniqueIds(s: seq<CopyOfBook>, id: Id, option: int, v: FieldValue)
    requires UniqueIds(s)
    ensures Updated(s, id, option, v).Ok? ==> UniqueIds(Updated(s, id, option, v).value)
  {
  }

  /** After a successful `Update`, the copy with the id is the old one with the one field set,
      and every other copy is untouched; a failed `Update` leaves no trace. */
  lemma UpdateThenFind(s: seq<CopyOfBook>, id: Id, option: int, v: FieldValue, other: Id)
    requires UniqueIds(s)
    ensures Updated(s, id, option, v).Err? <==> Find(s, id).None? || SetField(Find(s, id).value, option, v).Err?
    ensures Updated(s, id, option, v).Ok? ==>
              && |Updated(s, id, option, v).value| == |s|
              && Find(Updated(s, id, option, v).value, id) == Some(SetField(Find(s, id).value, option, v).value)
              && (other != id ==> Find(Updated(s, id, option, v).value, other) == Find(s, other))
  {
    if Updated(s, id, option, v).Ok? {
      var k := IndexOf(s, id).value;
      var s' := Updated(s, id, option, v).value;
      var p := (c: CopyOfBook) => c.id == id;
      assert forall j :: 0 <= j < |s| && j != k ==> s'[j] == s[j];
      FirstIndexIs(s', p, k);
      if other != id {
        var q := (c: CopyOfBook) => c.id == other;
        match IndexOf(s, other)
        case None =>
          assert forall j :: 0 <= j < |s'| ==> !q(s'[j]);
        case Some(m) =>
          FirstIndexIs(s', q, m);
      }
    }
  }

  /** `Update` does not re-apply `Add`'s checks: a stored copy can be given a negative price,
      which `Add` would have refused. */
  lemma UpdateAdmitsNegativePrice(s: seq<CopyOfBook>, id: Id, now: Date)
    requires Find(s, id).Some?
    ensures Updated(s, id, CopyOfBookPricePerDay, PriceValue(-1.0)).Ok?
    ensures var c := Updated(s, id, CopyOfBookPricePerDay, PriceValue(-1.0)).value[IndexOf(s, id).value];
            c.id == id && AddCheck([], c, now) != Pass
  {
  }
}
