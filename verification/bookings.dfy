/**
 The in-memory booking store of app.py (lines 7 and 58-94): a map from
 booking id to booking record, with create, update-date and cancel. Each
 operation takes the store and returns its reply together with the store
 after the call; nothing else is shared.
 */
module Bookings {

  import opened Wrappers
  import opened Text
  import opened Decimal

  datatype Booking = Booking(name: string, phoneNumber: string, property: string, date: string)

  type Store = map<string, Booking>

  /** The JSON fields of a create request; `None` is a field the request does not carry. */
  datatype Request = Request(
    name: Option<string>,
    phoneNumber: Option<string>,
    property: Option<string>,
    date: Option<string>)

  /** What a handler answers: a success payload, or a message with its HTTP status. */
  datatype Reply =
    | Created(bookingId: string)
    | Rescheduled(bookingId: string, newDate: string)
    | Cancelled(bookingId: string)
    | Rejected(message: string, status: int)

  const MissingFields := "Missing required fields."
  const NotFoundOrNoDate := "Booking not found or missing new date."
  const NotFound := "Booking not found."
  const BadRequest := 400
  const NotFoundStatus := 404

  const IdPrefix := "BN"
  const IdDigits := 6

  /** Python truthiness of an optional text: present and not empty. */
  predicate Truthy(field: Option<string>) {
    field.Some? && field.value != ""
  }

  /** Every field of the request is truthy. */
  predicate Complete(req: Request) {
    Truthy(req.name) && Truthy(req.phoneNumber) && Truthy(req.property) && Truthy(req.date)
  }

  function ToBooking(req: Request): Booking
    requires Complete(req)
  {
    Booking(req.name.value, req.phoneNumber.value, req.property.value, req.date.value)
  }

  /**
   `f"BN{n:06d}"`: "BN" and then the digits of `n`, zero-padded to six
   places and never padded further.
   */
  function BookingId(n: nat): (id: string)
    ensures |id| >= |IdPrefix| + IdDigits && id[..|IdPrefix|] == IdPrefix
    ensures AllDigits(id[|IdPrefix|..]) && ValueOf(id[|IdPrefix|..]) == n
    ensures |id| > |IdPrefix| + IdDigits ==> id[|IdPrefix|] != '0'
  {
    PaddedDenotes(n, IdDigits);
    var id := IdPrefix + Padded(n, IdDigits);
    assert id[|IdPrefix|..] == Padded(n, IdDigits);
    id
  }

  /** Reads the number back out of a booking id. */
  function IdNumber(id: string): Option<nat> {
    if |id| >= |IdPrefix| && id[..|IdPrefix|] == IdPrefix && AllDigits(id[|IdPrefix|..])
    then Some(ValueOf(id[|IdPrefix|..]))
    else None
  }

  /** Every id the store mints names its number: minting is injective. */
  lemma IdNumberOfBookingId(n: nat)
    ensures IdNumber(BookingId(n)) == Some(n)
  {
  }

  lemma BookingIdInjective(a: nat, b: nat)
    ensures BookingId(a) == BookingId(b) <==> a == b
  {
    IdNumberOfBookingId(a);
    IdNumberOfBookingId(b);
  }

  /** The ids minted for the first `n` bookings, "BN000001" to the n-th. */
  function IdsUpTo(n: nat): (ids: set<string>)
    ensures forall k: nat :: BookingId(k) in ids <==> 1 <= k <= n
    ensures |ids| == n
  {
    if n == 0 then {}
    else
      IdsUpToStep(n);
      IdsUpTo(n - 1) + {BookingId(n)}
  }

  lemma IdsUpToStep(n: nat)
    requires n >= 1
    ensures forall k: nat :: BookingId(k) == BookingId(n) <==> k == n
  {
    forall k: nat
      ensures BookingId(k) == BookingId(n) <==> k == n
    {
      BookingIdInjective(k, n);
    }
  }

  /**
   The create handler: if any of the four fields is missing or empty it
   answers 400 and leaves the store alone; otherwise it mints the id from the
   number of records held and stores the request's fields under that id,
   replacing whatever was there.
   */
  function CreateBooking(store: Store, req: Request): (res: (Reply, Store))
    ensures !Complete(req) ==> res == (Rejected(MissingFields, BadRequest), store)
    ensures Complete(req) ==>
      var id := BookingId(|store| + 1);
      && res.0 == Created(id)
      && res.1.Keys == store.Keys + {id}
      && res.1[id] == ToBooking(req)
      && forall k :: k in store && k != id ==> res.1[k] == store[k]
  {
    if !Complete(req) then
      (Rejected(MissingFields, BadRequest), store)
    else
      var id := BookingId(|store| + 1);
      (Created(id), store[id := ToBooking(req)])
  }

  /**
   The update handler: when the id is a key and the new date is truthy, only
   that record's date changes; otherwise it answers 404 and the store is as before.
   */
  function UpdateBooking(store: Store, bookingId: Option<string>, newDate: Option<string>): (res: (Reply, Store))
    ensures res.0.Rescheduled? <==> bookingId.Some? && bookingId.value in store && Truthy(newDate)
    ensures res.0.Rescheduled? ==>
      var id := bookingId.value;
      && res.0 == Rescheduled(id, newDate.value)
      && res.1.Keys == store.Keys
      && res.1[id] == Booking(store[id].name, store[id].phoneNumber, store[id].property, newDate.value)
      && forall k :: k in store && k != id ==> res.1[k] == store[k]
    ensures !res.0.Rescheduled? ==> res == (Rejected(NotFoundOrNoDate, NotFoundStatus), store)
  {
    if bookingId.Some? && bookingId.value in store && Truthy(newDate) then
      var id := bookingId.value;
      (Rescheduled(id, newDate.value), store[id := store[id].(date := newDate.value)])
    else
      (Rejected(NotFoundOrNoDate, NotFoundStatus), store)
  }

  /**
   The cancel handler: when the id is a key, exactly that record is removed;
   otherwise it answers 404 and the store is as before.
   */
  function CancelBooking(store: Store, bookingId: Option<string>): (res: (Reply, Store))
    ensures res.0.Cancelled? <==> bookingId.Some? && bookingId.value in store
    ensures res.0.Cancelled? ==>
      && res.0 == Cancelled(bookingId.value)
      && res.1.Keys == store.Keys - {bookingId.value}
      && |res.1| == |store| - 1
      && forall k :: k in res.1 ==> res.1[k] == store[k]
    ensures !res.0.Cancelled? ==> res == (Rejected(NotFound, NotFoundStatus), store)
  {
    if bookingId.Some? && bookingId.value in store then
      var id := bookingId.value;
      var rest := store - {id};
      assert rest.Keys == store.Keys - {id};
      (Cancelled(id), rest)
    else
      (Rejected(NotFound, NotFoundStatus), store)
  }

  /** The keys are exactly the first |store| minted ids: no booking has been cancelled. */
  predicate Sequential(store: Store) {
    store.Keys == IdsUpTo(|store|)
  }

  /**
   While the keys are "BN000001" up to the count, a create mints an id not in
   use, the store grows by one, and the keys stay sequential.
   */
  lemma CreateFreshWhileSequential(store: Store, req: Request)
    requires Sequential(store) && Complete(req)
    ensures BookingId(|store| + 1) !in store
    ensures |CreateBooking(store, req).1| == |store| + 1
    ensures Sequential(CreateBooking(store, req).1)
  {
    var after := CreateBooking(store, req).1;
    var n := |store|;
    assert after.Keys == IdsUpTo(n + 1);
    assert |after.Keys| == n + 1;
  }

  /** A create grows the store exactly when the minted id is not already a key. */
  lemma CreateGrowsIffFresh(store: Store, req: Request)
    requires Complete(req)
    ensures |CreateBooking(store, req).1| == |store| + 1 <==> BookingId(|store| + 1) !in store
    ensures BookingId(|store| + 1) in store ==> |CreateBooking(store, req).1| == |store|
  {
    var id := BookingId(|store| + 1);
    var after := CreateBooking(store, req).1;
    if id in store {
      assert after.Keys == store.Keys;
      assert |after.Keys| == |store.Keys|;
    } else {
      assert |after.Keys| == |store.Keys + {id}| == |store.Keys| + 1;
    }
  }

  /** Updating a date never adds or removes a key, so it keeps the keys sequential. */
  lemma UpdateKeepsSequential(store: Store, bookingId: Option<string>, newDate: Option<string>)
    requires Sequential(store)
    ensures Sequential(UpdateBooking(store, bookingId, newDate).1)
  {
    var after := UpdateBooking(store, bookingId, newDate).1;
    assert after.Keys == store.Keys;
    assert |after| == |after.Keys| == |store.Keys| == |store|;
  }

  /** Cancelling the same id twice: the second call finds nothing and changes nothing. */
  lemma CancelTwice(store: Store, id: string)
    requires id in store
    ensures var (first, once) := CancelBooking(store, Some(id));
      && first == Cancelled(id)
      && CancelBooking(once, Some(id)) == (Rejected(NotFound, NotFoundStatus), once)
  {
  }

  /** After a cancel, the cancelled id can no longer be updated. */
  lemma UpdateAfterCancel(store: Store, id: string, newDate: Option<string>)
    requires id in store
    ensures var once := CancelBooking(store, Some(id)).1;
      UpdateBooking(once, Some(id), newDate) == (Rejected(NotFoundOrNoDate, NotFoundStatus), once)
  {
  }

  /** Small numbers are padded to six digits. */
  lemma BookingIdExamples()
    ensures BookingId(1) == "BN000001"
    ensures BookingId(2) == "BN000002"
  {
  }

  /** A create of a complete request on an empty store mints the first id. */
  lemma CreateOnEmpty(req: Request)
    requires Complete(req)
    ensures CreateBooking(map[], req) == (Created(BookingId(1)), map[BookingId(1) := ToBooking(req)])
  {
  }

  /**
   Two creates on an empty store mint "BN000001" and "BN000002"; the first
   can then be rescheduled, and an id never minted cannot.
   */
  lemma CreateUpdateTrace(a: Request, b: Request)
    requires Complete(a) && Complete(b)
    ensures var (r1, s1) := CreateBooking(map[], a);
      var (r2, s2) := CreateBooking(s1, b);
      var (r3, s3) := UpdateBooking(s2, Some(BookingId(1)), Some("01-01-2031"));
      && r1 == Created(BookingId(1))
      && r2 == Created(BookingId(2))
      && r3 == Rescheduled(BookingId(1), "01-01-2031")
      && s3[BookingId(1)].date == "01-01-2031"
      && s3[BookingId(2)] == ToBooking(b)
      && UpdateBooking(s3, Some(BookingId(3)), Some("01-01-2031")).0 == Rejected(NotFoundOrNoDate, NotFoundStatus)
  {
    CreateOnEmpty(a);
    var s1 := CreateBooking(map[], a).1;
    assert Sequential(s1) by {
      assert IdsUpTo(1) == {BookingId(1)};
    }
    CreateFreshWhileSequential(s1, b);
    var s2 := CreateBooking(s1, b).1;
    assert s2.Keys == IdsUpTo(2);
    assert BookingId(3) !in s2;
  }

  /**
   With bookings "BN000001" up to the n-th held, cancel the k-th and create:
   the new id is the n-th again. For k < n that id is still held, and the
   booking under it is silently replaced; for k = n the cancelled id is
   handed out a second time.
   */
  lemma CancelThenCreate(store: Store, k: nat, req: Request)
    requires Sequential(store) && 1 <= k <= |store| && Complete(req)
    ensures var s := CancelBooking(store, Some(BookingId(k))).1;
      var (r, after) := CreateBooking(s, req);
      && r == Created(BookingId(|store|))
      && (k < |store| ==>
            && BookingId(|store|) in s
            && |after| == |s|
            && after[BookingId(|store|)] == ToBooking(req))
      && (k == |store| ==> BookingId(k) !in s)
  {
    var n := |store|;
    var s := CancelBooking(store, Some(BookingId(k))).1;
    assert |s| == n - 1;
    BookingIdInjective(k, n);
    if k < n {
      CreateGrowsIffFresh(s, req);
    }
  }

  /**
   Create, create, cancel the first, create: the third booking is minted
   "BN000002", the id of the second booking, which is still held, so the
   second booking is lost and the store does not grow.
   */
  lemma CreateAfterCancelOverwrites(a: Request, b: Request, c: Request)
    requires Complete(a) && Complete(b) && Complete(c)
    ensures var s1 := CreateBooking(map[], a).1;
      var s2 := CreateBooking(s1, b).1;
      var s3 := CancelBooking(s2, Some(BookingId(1))).1;
      var (r4, s4) := CreateBooking(s3, c);
      && BookingId(2) in s3 && s3[BookingId(2)] == ToBooking(b)
      && r4 == Created(BookingId(2))
      && s4[BookingId(2)] == ToBooking(c)
      && |s4| == |s3|
  {
    CreateOnEmpty(a);
    var s1 := CreateBooking(map[], a).1;
    assert Sequential(s1) by {
      assert IdsUpTo(1) == {BookingId(1)};
    }
    CreateFreshWhileSequential(s1, b);
    var s2 := CreateBooking(s1, b).1;
    BookingIdInjective(1, 2);
    CancelThenCreate(s2, 1, c);
  }

}
