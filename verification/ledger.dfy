/**
 The booking store with a counter-based identifier rule: ids come from a
 counter that starts at 1 and only grows, so an id is never minted twice,
 even after cancellations. Update and cancel are the handlers
 of the `Bookings` module applied to the records; only create differs.
 */
module Ledger {

  import opened Wrappers
  import opened Bookings

  datatype Ledger = Ledger(records: Store, nextSequence: nat)

  const Empty := Ledger(map[], 1)

  /** Every key was minted from a value the counter has already passed. */
  predicate Valid(l: Ledger) {
    && l.nextSequence >= 1
    && forall id :: id in l.records ==>
         IdNumber(id).Some? && 1 <= IdNumber(id).value < l.nextSequence
  }

  /**
   Create with the counter: the new id differs from every id minted before
   it, the counter advances past it, the store grows by one and every earlier
   booking is kept.
   */
  function Create(l: Ledger, req: Request): (res: (Reply, Ledger))
    requires Valid(l)
    ensures Valid(res.1)
    ensures !Complete(req) ==> res == (Rejected(MissingFields, BadRequest), l)
    ensures Complete(req) ==>
      var id := BookingId(l.nextSequence);
      && res.0 == Created(id)
      && res.1.nextSequence == l.nextSequence + 1
      && (forall k: nat :: 1 <= k < l.nextSequence ==> id != BookingId(k))
      && id !in l.records
      && res.1.records.Keys == l.records.Keys + {id}
      && |res.1.records| == |l.records| + 1
      && res.1.records[id] == ToBooking(req)
      && forall k :: k in l.records ==> res.1.records[k] == l.records[k]
  {
    if !Complete(req) then
      (Rejected(MissingFields, BadRequest), l)
    else
      var id := BookingId(l.nextSequence);
      NextIdFresh(l);
      var records := l.records[id := ToBooking(req)];
      assert records.Keys == l.records.Keys + {id};
      assert |records.Keys| == |l.records.Keys| + 1;
      (Created(id), Ledger(records, l.nextSequence + 1))
  }

  /** The next id differs from every id the counter has passed, so it is not a key. */
  lemma NextIdFresh(l: Ledger)
    requires Valid(l)
    ensures IdNumber(BookingId(l.nextSequence)) == Some(l.nextSequence)
    ensures forall k: nat :: 1 <= k < l.nextSequence ==> BookingId(l.nextSequence) != BookingId(k)
    ensures BookingId(l.nextSequence) !in l.records
  {
    IdNumberOfBookingId(l.nextSequence);
    forall k: nat | 1 <= k < l.nextSequence
      ensures BookingId(l.nextSequence) != BookingId(k)
    {
      IdNumberOfBookingId(k);
    }
  }

  /** The id after the first `n` is not among them, and adding it gives the first `n + 1`. */
  lemma NextIdUnused(n: nat)
    ensures BookingId(n + 1) !in IdsUpTo(n)
    ensures IdsUpTo(n + 1) == IdsUpTo(n) + {BookingId(n + 1)}
  {
  }

  /** Update as the as-written handler does it; the counter is untouched. */
  function Update(l: Ledger, bookingId: Option<string>, newDate: Option<string>): (res: (Reply, Ledger))
    requires Valid(l)
    ensures Valid(res.1)
    ensures res.1.nextSequence == l.nextSequence
    ensures (res.0, res.1.records) == UpdateBooking(l.records, bookingId, newDate)
  {
    var (reply, records) := UpdateBooking(l.records, bookingId, newDate);
    (reply, l.(records := records))
  }

  /** Cancel as the as-written handler does it; the counter is untouched. */
  function Cancel(l: Ledger, bookingId: Option<string>): (res: (Reply, Ledger))
    requires Valid(l)
    ensures Valid(res.1)
    ensures res.1.nextSequence == l.nextSequence
    ensures (res.0, res.1.records) == CancelBooking(l.records, bookingId)
  {
    var (reply, records) := CancelBooking(l.records, bookingId);
    (reply, l.(records := records))
  }

  /**
   Until the first cancellation the counter equals the count plus one, and
   then the corrected create does exactly what the as-written one does.
   */
  lemma CreateAgreesWhileSequential(store: Store, req: Request)
    requires Sequential(store)
    ensures Valid(Ledger(store, |store| + 1))
    ensures var res := Create(Ledger(store, |store| + 1), req);
      (res.0, res.1.records) == CreateBooking(store, req)
  {
    IdsUpToNumbers(|store|);
  }

  /**
   The trace that overwrites a booking in the as-written store: here the
   third booking gets "BN000003" and the second booking is kept.
   */
  lemma CreateAfterCancelKeepsAll(a: Request, b: Request, c: Request)
    requires Complete(a) && Complete(b) && Complete(c)
    ensures var (_, l1) := Create(Empty, a);
      var (_, l2) := Create(l1, b);
      var (_, l3) := Cancel(l2, Some(BookingId(1)));
      var (r4, l4) := Create(l3, c);
      && r4 == Created(BookingId(3))
      && l4.records == map[BookingId(2) := ToBooking(b), BookingId(3) := ToBooking(c)]
  {
    CancelFirstThenCreate(Empty, a, b, c);
  }

  /**
   From any valid ledger: create, create, cancel the first new id, create.
   The third create gets the counter's third value and both the second and
   third bookings are held, next to every booking held before.
   */
  lemma CancelFirstThenCreate(l: Ledger, a: Request, b: Request, c: Request)
    requires Valid(l)
    requires Complete(a) && Complete(b) && Complete(c)
    ensures var n := l.nextSequence;
      var (_, l1) := Create(l, a);
      var (_, l2) := Create(l1, b);
      var (_, l3) := Cancel(l2, Some(BookingId(n)));
      var (r4, l4) := Create(l3, c);
      && r4 == Created(BookingId(n + 2))
      && l4.records == l.records[BookingId(n + 1) := ToBooking(b)][BookingId(n + 2) := ToBooking(c)]
  {
    var n := l.nextSequence;
    var l3 := Ledger(l.records[BookingId(n + 1) := ToBooking(b)], n + 2);
    CreateCreateCancel(l, a, b);
    assert Valid(l3);
    CreateStores(l3, c);
  }

  /** The first two steps of that trace: the second booking ends up held on its own. */
  lemma CreateCreateCancel(l: Ledger, a: Request, b: Request)
    requires Valid(l)
    requires Complete(a) && Complete(b)
    ensures var n := l.nextSequence;
      var (_, l1) := Create(l, a);
      var (_, l2) := Create(l1, b);
      Cancel(l2, Some(BookingId(n))).1 == Ledger(l.records[BookingId(n + 1) := ToBooking(b)], n + 2)
  {
    var n := l.nextSequence;
    NextIdFresh(l);
    BookingIdInjective(n, n + 1);
    CreateStores(l, a);
    var l1 := Ledger(l.records[BookingId(n) := ToBooking(a)], n + 1);
    CreateStores(l1, b);
    var l2 := Ledger(l1.records[BookingId(n + 1) := ToBooking(b)], n + 2);
    CancelRemoves(l2, BookingId(n));
    RemoveFreshKey(l.records, BookingId(n), BookingId(n + 1), ToBooking(a), ToBooking(b));
  }

  /** Adding a fresh key `x` and then removing it leaves only the other addition. */
  lemma RemoveFreshKey(m: Store, x: string, y: string, vx: Booking, vy: Booking)
    requires x !in m && x != y
    ensures m[x := vx][y := vy] - {x} == m[y := vy]
  {
  }

  /** A complete create stores the request under the counter's id and advances the counter. */
  lemma CreateStores(l: Ledger, req: Request)
    requires Valid(l) && Complete(req)
    ensures Create(l, req) ==
      (Created(BookingId(l.nextSequence)),
       Ledger(l.records[BookingId(l.nextSequence) := ToBooking(req)], l.nextSequence + 1))
    ensures Valid(Ledger(l.records[BookingId(l.nextSequence) := ToBooking(req)], l.nextSequence + 1))
  {
  }

  /** Cancelling a held id removes exactly that key and keeps the counter. */
  lemma CancelRemoves(l: Ledger, id: string)
    requires Valid(l) && id in l.records
    ensures Cancel(l, Some(id)) == (Cancelled(id), l.(records := l.records - {id}))
    ensures Valid(l.(records := l.records - {id}))
  {
  }

  /** One request to the store: a create, a reschedule or a cancel. */
  datatype Action =
    | Book(req: Request)
    | Reschedule(bookingId: Option<string>, newDate: Option<string>)
    | Withdraw(bookingId: Option<string>)

  /** Serve one request; only a successful create moves the counter, and by exactly one. */
  function Step(l: Ledger, a: Action): (res: (Reply, Ledger))
    requires Valid(l)
    ensures Valid(res.1)
    ensures res.0.Created? <==> a.Book? && Complete(a.req)
    ensures res.0.Created? ==> res.0.bookingId == BookingId(l.nextSequence)
    ensures res.0.Created? ==> IdNumber(res.0.bookingId) == Some(l.nextSequence)
    ensures res.0.Created? ==> res.1.nextSequence == l.nextSequence + 1
    ensures !res.0.Created? ==> res.1.nextSequence == l.nextSequence
  {
    IdNumberOfBookingId(l.nextSequence);
    match a
    case Book(req) => Create(l, req)
    case Reschedule(id, date) => Update(l, id, date)
    case Withdraw(id) => Cancel(l, id)
  }

  /** Serve a sequence of requests in order, collecting the replies. */
  function Run(l: Ledger, actions: seq<Action>): (res: (seq<Reply>, Ledger))
    requires Valid(l)
    ensures Valid(res.1)
    ensures |res.0| == |actions|
    ensures res.1.nextSequence >= l.nextSequence
    decreases |actions|
  {
    if |actions| == 0 then ([], l)
    else
      var (reply, next) := Step(l, actions[0]);
      var (replies, last) := Run(next, actions[1..]);
      ([reply] + replies, last)
  }

  /** Every id among the first `n` carries a number from 1 to `n`. */
  lemma {:induction false} IdsUpToNumbers(n: nat)
    ensures forall id :: id in IdsUpTo(n) ==> IdNumber(id).Some? && 1 <= IdNumber(id).value <= n
    decreases n
  {
    if n > 0 {
      IdsUpToNumbers(n - 1);
      IdNumberOfBookingId(n);
      assert IdsUpTo(n) == IdsUpTo(n - 1) + {BookingId(n)};
    }
  }

  /**
   The creates among `replies` returned ids numbered from `lo` up to but
   excluding `hi`, in strictly increasing order.
   */
  predicate MintedInOrder(replies: seq<Reply>, lo: nat, hi: nat) {
    && (forall i :: 0 <= i < |replies| && replies[i].Created? ==>
          IdNumber(replies[i].bookingId).Some?
          && lo <= IdNumber(replies[i].bookingId).value < hi)
    && (forall i, j :: 0 <= i < j < |replies| && replies[i].Created? && replies[j].Created? ==>
          IdNumber(replies[i].bookingId).Some? && IdNumber(replies[j].bookingId).Some?
          && IdNumber(replies[i].bookingId).value < IdNumber(replies[j].bookingId).value)
  }

  /** A create numbered `lo` in front of creates numbered from `mid > lo` keeps the order. */
  lemma MintedInOrderCons(reply: Reply, rest: seq<Reply>, lo: nat, mid: nat, hi: nat)
    requires lo <= mid <= hi
    requires reply.Created? ==> IdNumber(reply.bookingId) == Some(lo) && lo < mid
    requires MintedInOrder(rest, mid, hi)
    ensures MintedInOrder([reply] + rest, lo, hi)
  {
    var replies := [reply] + rest;
    forall i | 1 <= i < |replies|
      ensures replies[i] == rest[i - 1]
    {
    }
  }

  /**
   Over any sequence of creates, reschedules and cancels, the creates take
   their ids from counter values the sequence passes, in increasing order.
   */
  lemma {:induction false} RunMintsFromCounter(l: Ledger, actions: seq<Action>)
    requires Valid(l)
    ensures MintedInOrder(Run(l, actions).0, l.nextSequence, Run(l, actions).1.nextSequence)
    decreases |actions|
  {
    if |actions| > 0 {
      var (reply, next) := Step(l, actions[0]);
      var (rest, last) := Run(next, actions[1..]);
      RunMintsFromCounter(next, actions[1..]);
      MintedInOrderCons(reply, rest, l.nextSequence, next.nextSequence, last.nextSequence);
      assert Run(l, actions).0 == [reply] + rest;
    }
  }

  /**
   Creates numbered from the counter of a valid ledger on return distinct ids,
   none of them an id minted before or a key of that ledger.
   */
  lemma MintedInOrderFresh(l: Ledger, replies: seq<Reply>, hi: nat)
    requires Valid(l)
    requires MintedInOrder(replies, l.nextSequence, hi)
    ensures forall i :: 0 <= i < |replies| && replies[i].Created? ==>
      replies[i].bookingId !in IdsUpTo(l.nextSequence - 1) && replies[i].bookingId !in l.records
    ensures forall i, j :: 0 <= i < j < |replies| && replies[i].Created? && replies[j].Created? ==>
      replies[i].bookingId != replies[j].bookingId
  {
    IdsUpToNumbers(l.nextSequence - 1);
    forall i | 0 <= i < |replies| && replies[i].Created?
      ensures replies[i].bookingId !in IdsUpTo(l.nextSequence - 1)
      ensures replies[i].bookingId !in l.records
    {
      assert IdNumber(replies[i].bookingId).value >= l.nextSequence;
    }
  }

  /**
   No id is minted twice: over any sequence of requests, the ids the creates
   return are pairwise distinct, and none of them is an id minted before the
   sequence began, so none is a key of the starting store.
   */
  lemma NeverMintedTwice(l: Ledger, actions: seq<Action>)
    requires Valid(l)
    ensures var replies := Run(l, actions).0;
      forall i :: 0 <= i < |replies| && replies[i].Created? ==>
        replies[i].bookingId !in IdsUpTo(l.nextSequence - 1) && replies[i].bookingId !in l.records
    ensures var replies := Run(l, actions).0;
      forall i, j :: 0 <= i < j < |replies| && replies[i].Created? && replies[j].Created? ==>
        replies[i].bookingId != replies[j].bookingId
  {
    var (replies, last) := Run(l, actions);
    RunMintsFromCounter(l, actions);
    MintedInOrderFresh(l, replies, last.nextSequence);
  }

}
