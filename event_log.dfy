/** The availability tracker: what the event log says about rents, returns and which copies are
    out on loan. Every query of the data service is a replay of the log; these functions are the
    meaning of those replays, and the lemmas below are the facts the service relies on. */
module EventLog {
  import opened Common
  import opened Seqs
  import opened DataObjects

  /** The `Rent` events of the log, in log order. */
  function Rents(log: seq<Event>): (rs: seq<Rent>)
    ensures |rs| <= |log|
    ensures forall r :: r in rs ==> RentEvent(r) in log
    ensures forall r :: RentEvent(r) in log ==> r in rs
  {
    if log == [] then []
    else
      var last := log[|log| - 1];
      assert log == log[..|log| - 1] + [last];
      Rents(log[..|log| - 1]) + (if last.RentEvent? then [last.rent] else [])
  }

  /** The `Return` events of the log, in log order. */
  function Returns(log: seq<Event>): (ts: seq<Return>)
    ensures |ts| <= |log|
    ensures forall t :: t in ts ==> ReturnEvent(t) in log
    ensures forall t :: ReturnEvent(t) in log ==> t in ts
  {
    if log == [] then []
    else
      var last := log[|log| - 1];
      assert log == log[..|log| - 1] + [last];
      Returns(log[..|log| - 1]) + (if last.ReturnEvent? then [last.ret] else [])
  }

  /** The open rents among `rs`, in order. */
  function OpenRents(rs: seq<Rent>): (os: seq<Rent>)
    ensures |os| <= |rs|
    ensures forall r :: r in os ==> r in rs && IsOpen(r)
    ensures forall r :: r in rs && IsOpen(r) ==> r in os
  {
    if rs == [] then []
    else
      var last := rs[|rs| - 1];
      assert rs == rs[..|rs| - 1] + [last];
      OpenRents(rs[..|rs| - 1]) + (if IsOpen(last) then [last] else [])
  }

  /** The rents of the log that are still open. */
  function CurrentRents(log: seq<Event>): (os: seq<Rent>)
    ensures forall r :: r in os ==> RentEvent(r) in log && IsOpen(r)
    ensures forall r :: RentEvent(r) in log && IsOpen(r) ==> r in os
  {
    OpenRents(Rents(log))
  }

  /** The returns among `ts` made against the rent with id `id`, in order. */
  function ReturnsFor(ts: seq<Return>, id: Id): (us: seq<Return>)
    ensures |us| <= |ts|
    ensures forall t :: t in us ==> t in ts && t.rent == id
    ensures forall t :: t in ts && t.rent == id ==> t in us
  {
    if ts == [] then []
    else
      var last := ts[|ts| - 1];
      assert ts == ts[..|ts| - 1] + [last];
      ReturnsFor(ts[..|ts| - 1], id) + (if last.rent == id then [last] else [])
  }

  /** Every copy named by some return of `ts`. */
  function ReturnedCopies(ts: seq<Return>): (cs: set<Id>)
    ensures forall c :: c in cs ==> exists t :: t in ts && c in t.copies
    ensures forall c, t :: t in ts && c in t.copies ==> c in cs
  {
    if ts == [] then {}
    else
      var last := ts[|ts| - 1];
      assert ts == ts[..|ts| - 1] + [last];
      ReturnedCopies(ts[..|ts| - 1]) + set c | c in last.copies
  }

  /** Copy `c` was handed back by some return against the rent with id `id`. */
  ghost predicate ReturnedAgainst(log: seq<Event>, id: Id, c: Id) {
    exists t :: ReturnEvent(t) in log && t.rent == id && c in t.copies
  }

  /** The copies of `rent` still out: its copies minus everything any return against it names. */
  function Outstanding(log: seq<Event>, rent: Rent): (cs: seq<Id>)
    ensures forall c :: c in cs ==> c in rent.copies && !ReturnedAgainst(log, rent.id, c)
    ensures forall c :: c in rent.copies && !ReturnedAgainst(log, rent.id, c) ==> c in cs
    ensures Distinct(rent.copies) ==> Distinct(cs)
  {
    Without(rent.copies, ReturnedCopies(ReturnsFor(Returns(log), rent.id)))
  }

  /** Copy `c` is rented: it is still out under some open rent of the log. */
  ghost predicate IsRented(log: seq<Event>, c: Id) {
    exists r :: RentEvent(r) in log && IsOpen(r) && c in Outstanding(log, r)
  }

  /** The outstanding copies of the open rents among `rs`, concatenated in order. */
  function RentedCopiesOf(log: seq<Event>, rs: seq<Rent>): (cs: seq<Id>)
    ensures forall c :: c in cs ==> exists r :: r in rs && IsOpen(r) && c in Outstanding(log, r)
    ensures forall c, r :: r in rs && IsOpen(r) && c in Outstanding(log, r) ==> c in cs
  {
    if rs == [] then []
    else
      var last := rs[|rs| - 1];
      assert rs == rs[..|rs| - 1] + [last];
      RentedCopiesOf(log, rs[..|rs| - 1]) + (if IsOpen(last) then Outstanding(log, last) else [])
  }

  /** Every copy currently out on loan, rent by rent in log order. */
  function RentedCopies(log: seq<Event>): (cs: seq<Id>)
    ensures forall c :: c in cs <==> IsRented(log, c)
  {
    RentedCopiesOf(log, Rents(log))
  }

  // ---------------------------------------------------------------------------------------------
  // The queries are order-preserving filters of the log.

  lemma {:induction false} RentsAppend(a: seq<Event>, b: seq<Event>)
    ensures Rents(a + b) == Rents(a) + Rents(b)
  {
    if b == [] {
      assert a + b == a;
    } else {
      assert (a + b)[..|a + b| - 1] == a + b[..|b| - 1];
      RentsAppend(a, b[..|b| - 1]);
    }
  }

  lemma {:induction false} ReturnsAppend(a: seq<Event>, b: seq<Event>)
    ensures Returns(a + b) == Returns(a) + Returns(b)
  {
    if b == [] {
      assert a + b == a;
    } else {
      assert (a + b)[..|a + b| - 1] == a + b[..|b| - 1];
      ReturnsAppend(a, b[..|b| - 1]);
    }
  }

  lemma {:induction false} OpenRentsAppend(a: seq<Rent>, b: seq<Rent>)
    ensures OpenRents(a + b) == OpenRents(a) + OpenRents(b)
  {
    if b == [] {
      assert a + b == a;
    } else {
      assert (a + b)[..|a + b| - 1] == a + b[..|b| - 1];
      OpenRentsAppend(a, b[..|b| - 1]);
    }
  }

  /** The current rents of a concatenated log are those of each part, in order. */
  lemma CurrentRentsAppend(a: seq<Event>, b: seq<Event>)
    ensures CurrentRents(a + b) == CurrentRents(a) + CurrentRents(b)
  {
    RentsAppend(a, b);
    OpenRentsAppend(Rents(a), Rents(b));
  }

  // ---------------------------------------------------------------------------------------------
  // How appending an event and closing a rent change what is outstanding.

  lemma ReturnsAfterRent(log: seq<Event>, r: Rent)
    ensures Returns(log + [RentEvent(r)]) == Returns(log)
  {
    assert (log + [RentEvent(r)])[..|log|] == log;
  }

  lemma ReturnsAfterReturn(log: seq<Event>, t: Return)
    ensures Returns(log + [ReturnEvent(t)]) == Returns(log) + [t]
  {
    assert (log + [ReturnEvent(t)])[..|log|] == log;
  }

  /** Opening a rent changes nothing that any rent has outstanding. */
  lemma OutstandingAfterRent(log: seq<Event>, r: Rent, rent: Rent)
    ensures Outstanding(log + [RentEvent(r)], rent) == Outstanding(log, rent)
  {
    ReturnsAfterRent(log, r);
  }

  /** A return removes its copies from its own rent's outstanding copies and from no other's. */
  lemma OutstandingAfterReturn(log: seq<Event>, t: Return, rent: Rent)
    ensures t.rent != rent.id ==> Outstanding(log + [ReturnEvent(t)], rent) == Outstanding(log, rent)
    ensures forall c :: c in Outstanding(log + [ReturnEvent(t)], rent) <==>
      c in Outstanding(log, rent) && !(t.rent == rent.id && c in t.copies)
  {
    var gone := ReturnedAfter(Returns(log), t, rent.id);
    ReturnsAfterReturn(log, t);
    var before := ReturnedCopies(ReturnsFor(Returns(log), rent.id));
    assert Outstanding(log, rent) == Without(rent.copies, before);
    assert Outstanding(log + [ReturnEvent(t)], rent) == Without(rent.copies, gone);
    if t.rent != rent.id {
      assert gone == before;
    }
  }

  /** The copies returned against `id` once `t` is appended to `ts`. */
  lemma ReturnedAfter(ts: seq<Return>, t: Return, id: Id) returns (gone: set<Id>)
    ensures gone == ReturnedCopies(ReturnsFor(ts + [t], id))
    ensures gone == ReturnedCopies(ReturnsFor(ts, id)) + (if t.rent == id then set c | c in t.copies else {})
  {
    assert (ts + [t])[..|ts|] == ts;
    var us := ReturnsFor(ts, id);
    assert ReturnsFor(ts + [t], id) == us + (if t.rent == id then [t] else []);
    if t.rent == id {
      assert (us + [t])[..|us|] == us;
    } else {
      assert us + [] == us;
    }
    gone := ReturnedCopies(ReturnsFor(ts + [t], id));
  }

  /** The log after the rent with id `id` is marked returned at `date` (its `DateOfReturn` set). */
  function CloseRent(log: seq<Event>, id: Id, date: Date): (r: seq<Event>)
    ensures |r| == |log|
    ensures forall i :: 0 <= i < |log| ==> r[i] == CloseEvent(log[i], id, date)
  {
    seq(|log|, i requires 0 <= i < |log| => CloseEvent(log[i], id, date))
  }

  function CloseEvent(e: Event, id: Id, date: Date): Event {
    if e.RentEvent? && e.rent.id == id then RentEvent(CloseValue(e.rent, id, date)) else e
  }

  function CloseValue(r: Rent, id: Id, date: Date): Rent {
    if r.id == id then r.(dateOfReturn := Some(date)) else r
  }

  /** Closing a rent leaves the returns of the log as they were. */
  lemma {:induction false} ReturnsAfterClose(log: seq<Event>, id: Id, date: Date)
    ensures Returns(CloseRent(log, id, date)) == Returns(log)
  {
    if log != [] {
      var n := |log| - 1;
      assert CloseRent(log, id, date)[..n] == CloseRent(log[..n], id, date);
      ReturnsAfterClose(log[..n], id, date);
    }
  }

  lemma OutstandingAfterClose(log: seq<Event>, id: Id, date: Date, rent: Rent)
    ensures Outstanding(CloseRent(log, id, date), rent) == Outstanding(log, rent)
  {
    ReturnsAfterClose(log, id, date);
  }

  /** Every rent of the closed log is a rent of the old log, closed if it has id `id`. */
  lemma CloseRentMember(log: seq<Event>, id: Id, date: Date, r: Rent)
    requires RentEvent(r) in CloseRent(log, id, date)
    ensures exists r0 :: RentEvent(r0) in log && r == CloseValue(r0, id, date)
  {
    var i :| 0 <= i < |log| && CloseRent(log, id, date)[i] == RentEvent(r);
    assert log[i].RentEvent?;
    assert RentEvent(log[i].rent) in log;
  }

  /** Every rent of the old log is in the closed log, closed if it has id `id`. */
  lemma CloseRentKeeps(log: seq<Event>, id: Id, date: Date, r: Rent)
    requires RentEvent(r) in log
    ensures RentEvent(CloseValue(r, id, date)) in CloseRent(log, id, date)
  {
    var i :| 0 <= i < |log| && log[i] == RentEvent(r);
    assert CloseRent(log, id, date)[i] == RentEvent(CloseValue(r, id, date));
  }

  /** Whether a rent's copies come back in one return or split over two, in either order, what
      remains outstanding is the same. */
  lemma SplitReturnSameOutstanding(log: seq<Event>, t1: Return, t2: Return, t: Return, rent: Rent)
    requires t1.rent == t2.rent == t.rent
    requires forall c :: c in t.copies <==> c in t1.copies || c in t2.copies
    ensures Outstanding(log + [ReturnEvent(t1), ReturnEvent(t2)], rent)
         == Outstanding(log + [ReturnEvent(t2), ReturnEvent(t1)], rent)
         == Outstanding(log + [ReturnEvent(t)], rent)
  {
    var a, b := ReturnEvent(t1), ReturnEvent(t2);
    assert log + [a, b] == (log + [a]) + [b];
    assert log + [b, a] == (log + [b]) + [a];
    OutstandingAfterReturn(log, t1, rent);
    OutstandingAfterReturn(log, t2, rent);
    OutstandingAfterReturn(log, t, rent);
    OutstandingAfterReturn(log + [a], t2, rent);
    OutstandingAfterReturn(log + [b], t1, rent);
    var o12 := Outstanding(log + [a, b], rent);
    var o21 := Outstanding(log + [b, a], rent);
    var o := Outstanding(log + [ReturnEvent(t)], rent);
    var cs := rent.copies;
    SameMembersSameFilter(cs, o12, o21, ReturnedCopies(ReturnsFor(Returns(log + [a, b]), rent.id)),
                          ReturnedCopies(ReturnsFor(Returns(log + [b, a]), rent.id)));
    SameMembersSameFilter(cs, o12, o, ReturnedCopies(ReturnsFor(Returns(log + [a, b]), rent.id)),
                          ReturnedCopies(ReturnsFor(Returns(log + [ReturnEvent(t)]), rent.id)));
  }

  /** Two filterings of the same sequence that keep the same members are equal. */
  lemma SameMembersSameFilter(s: seq<Id>, r1: seq<Id>, r2: seq<Id>, x1: set<Id>, x2: set<Id>)
    requires r1 == Without(s, x1) && r2 == Without(s, x2)
    requires forall c :: c in r1 <==> c in r2
    ensures r1 == r2
  {
    forall y | y in s ensures y in x1 <==> y in x2 {
      assert y in x1 <==> y !in r1;
      assert y in x2 <==> y !in r2;
    }
    WithoutAgree(s, x1, x2);
  }

  // ---------------------------------------------------------------------------------------------
  // One step of each replay loop of the data service.

  /** Taking the next closed rent out of "open rents so far, then the rest". */
  lemma OpenRentsStep(all: seq<Rent>, i: nat)
    requires i < |all|
    ensures OpenRents(all[..i + 1]) + all[i + 1..]
            == if IsOpen(all[i]) then OpenRents(all[..i]) + all[i..]
               else RemoveFirst(OpenRents(all[..i]) + all[i..], all[i])
  {
    assert all[..i + 1][..i] == all[..i];
    assert all[i..] == [all[i]] + all[i + 1..];
    if !IsOpen(all[i]) {
      RemoveFirstAfter(OpenRents(all[..i]), all[i], all[i + 1..]);
      assert OpenRents(all[..i]) + [all[i]] + all[i + 1..] == OpenRents(all[..i]) + all[i..];
    }
  }

  lemma ReturnedCopiesStep(ts: seq<Return>, i: nat)
    requires i < |ts|
    ensures ReturnedCopies(ts[..i + 1]) == ReturnedCopies(ts[..i]) + Elements(ts[i].copies)
  {
    assert ts[..i + 1][..i] == ts[..i];
  }

  /** Removing the next returned copy once from what is outstanding so far. */
  lemma RemoveReturnedStep(s: seq<Id>, gone: set<Id>, cs: seq<Id>, j: nat)
    requires Distinct(s) && j < |cs|
    ensures RemoveFirst(Without(s, gone + Elements(cs[..j])), cs[j]) == Without(s, gone + Elements(cs[..j + 1]))
  {
    RemoveFirstWithout(s, gone + Elements(cs[..j]), cs[j]);
    assert cs[..j + 1] == cs[..j] + [cs[j]];
    assert (gone + Elements(cs[..j])) + {cs[j]} == gone + Elements(cs[..j + 1]);
  }

  lemma RentedCopiesOfStep(log: seq<Event>, rs: seq<Rent>, i: nat)
    requires i < |rs|
    ensures RentedCopiesOf(log, rs[..i + 1])
            == RentedCopiesOf(log, rs[..i]) + if IsOpen(rs[i]) then Outstanding(log, rs[i]) else []
  {
    assert rs[..i + 1][..i] == rs[..i];
  }
}
