# Booking backend: validators and booking store

A Dafny model of the core of `app.py`, a small Flask backend for property
bookings. It covers two things:

- **Field validators.** `validate_phone`, `validate_city`, `validate_date` and
  `collect_name` are modelled as total functions from the field's text to the
  reply (module `Validators`). The `strptime("%d-%m-%Y")` parse and the
  Gregorian calendar check sit in `Calendar`. Python's `strip`, `title` and
  `lower` are in `Text`, and digit strings are in `Decimal`.
- **Booking store.** The `bookings` dict is a `map<string, Booking>`. The
  `create_booking`, `update_booking` and `cancel_booking` handlers are pure
  functions. Each takes the store and returns the reply together with the
  store after the call (module `Bookings`). A failure reply carries its message
  and its HTTP status, 400 or 404, as plain data.

Fields read with `data.get(key)` are `Option<string>`, where `None` means the
request does not carry the field. Python truthiness of such a field is
`Truthy`: present and not empty. The validators read their field with the
default `""`, so an absent field is modelled as the empty text.

Module `Ledger` is the corrected booking store described under "Findings". Its
ids come from a counter, never from the record count.

Two behaviours of `app.py` that are easy to misread, and that the model follows:

- `%d` and `%m` in `strptime` accept one-digit fields, and `%d` also accepts a
  space followed by one digit (`" 5-1-2030"` parses). Only the year must have
  exactly four digits.
- `create_booking` keeps the raw, untrimmed fields and checks only their
  truthiness.

## Model

| member | source | states |
|---|---|---|
| Text.Trim | app.py:22 | `strip()` returns the one substring with no whitespace at either end and only whitespace around it. The result is empty exactly when the text is all whitespace. |
| Text.TrimUnique | app.py:53-54 | Any substring with no whitespace at its ends and only whitespace around it is what `strip()` returns. |
| Text.TrimIdempotent | app.py:53-54 | Stripping a stripped text changes nothing. |
| Text.TitleFrom | app.py:22 | `title()` raises the first character when no letter precedes the text and lowers it otherwise. Every later character is lowered after a letter and raised after anything else, and the length is kept. |
| Text.Title | app.py:22 | `title()` raises each character at the start of the text or after a non-letter, and lowers each character after a letter. |
| Text.TitleAfterApostrophe | app.py:22 | A letter after an apostrophe starts a new word: `"they're"` title-cases to `"They'Re"`. |
| Text.LowerOfTitle | app.py:22 | `title()` only changes letter case: lowering its result gives the lowered input. |
| Text.TitleOfWord | app.py:22 | A word made only of letters title-cases to an upper-case initial followed by the lowered rest. |
| Decimal.PaddedDenotes | app.py:66 | `{n:06d}` writes digits that denote `n`. It is at least six long and pads with zeros only up to six. |
| Validators.ValidatePhone | app.py:14-15 | A phone is valid exactly when it is the ten-digit zero-padded spelling of a number below 10^10, i.e. ten digits and nothing else. |
| Validators.PhoneExamples | app.py:14-15 | Ten digits pass. The empty text, nine or eleven digits, a leading `+`, and an inner `-` or space fail. |
| Validators.ValidateCity | app.py:22-23 | A city is valid exactly when its stripped text lowers to "delhi" or "bangalore". The allowed list is `["Delhi", "Bangalore"]`. |
| Validators.AllowedIffLowered | app.py:22-23 | A stripped text title-cases into the allowed list exactly when it lowers to an allowed name. |
| Validators.CityIgnoresCaseAndSpace | app.py:22-23 | The city check gives the same answer on a text and on its stripped, lower-cased form, so letter case and surrounding whitespace never matter. |
| Validators.CityExampleMixedCase | app.py:22-23 | `"  dELhi "` is a valid city. |
| Validators.CityExampleInnerSpace | app.py:22-23 | `"Del hi"` is not a valid city. |
| Validators.CityExampleOther | app.py:22-23 | `"Mumbai"` is not a valid city. |
| Calendar.SplitAtFirst | app.py:32 | Splitting at the first `-` gives a dash-free head and the rest, rejoined around the dash. No split means no dash. |
| Calendar.SplitAtFirstOfJoin | app.py:32 | When the head has no dash, splitting `head + "-" + tail` gives back exactly head and tail. |
| Calendar.DayFieldIff | app.py:32 | The `%d` pattern reads day `v` from exactly its spellings: two digits, or for 1-9 also one digit or a space and one digit. |
| Calendar.MonthFieldIff | app.py:32 | The `%m` pattern reads month `v` from exactly its spellings: two digits, or for 1-9 also one digit. |
| Calendar.YearFieldIff | app.py:32 | The `%Y` pattern reads year `y` from exactly its four-digit zero-padded spelling. |
| Calendar.MatchFormatFields | app.py:32 | A text made of three dash-separated fields matches exactly when each field matches its directive. |
| Calendar.ParseDate | app.py:32 | A parse that does not raise yields a real calendar day in years 1-9999. |
| Calendar.ParseDateIff | app.py:32 | The parse yields `d` exactly when `d` is a real day and the text is one of its day-month-year spellings. Every other text raises. |
| Calendar.ParseFormatDate | app.py:32 | The canonical `DD-MM-YYYY` spelling of a real day parses back to that day. |
| Validators.ValidateDate | app.py:30-36 | A date text is valid exactly when it spells a real day (leap years included) on or after today. Every other text gives `false`, never an error. |
| Validators.ValidateDateToday | app.py:33-34 | Today's own date is valid. |
| Validators.ValidateDateMonotone | app.py:34 | A text valid against some today stays valid against any earlier today. |
| Validators.ValidateDatePast | app.py:34 | A day strictly before today is invalid however it is spelled. |
| Validators.DateExampleShortFields | app.py:32-34 | `"1-1-2030"` is valid against 10 October 2026. |
| Validators.DateExampleLeapDay | app.py:32-34 | `"29-02-2028"` is valid against 10 October 2026. |
| Validators.DateExampleNoLeapDay | app.py:32-36 | `"29-02-2027"` is invalid: 2027 is not a leap year. |
| Validators.DateExampleNoSuchDay | app.py:32-36 | `"31-04-2030"` is invalid: April has 30 days. |
| Validators.DateExamplePast | app.py:32-34 | `"25-12-2025"` is invalid against 10 October 2026. |
| Validators.DateExampleMalformed | app.py:31-36 | `"2025/12/25"` is invalid. |
| Validators.CollectName | app.py:52-54 | The reply's name is the stripped name. The reply is valid exactly when the name has a non-whitespace character. |
| Validators.CollectNameIdempotent | app.py:53-54 | Sending the returned name back gets the same reply. |
| Validators.NameExampleBlank | app.py:52-54 | `"  "` and `""` give `(false, "")`. |
| Validators.NameExamplePadded | app.py:52-54 | `" Bob "` gives `(true, "Bob")`. |
| Bookings.BookingId | app.py:66 | The id is `"BN"` followed by digits that denote `n`. There are at least six digits, and no leading zero beyond six. |
| Bookings.IdNumberOfBookingId | app.py:66 | Reading the number back out of a minted id gives the number it was minted from. |
| Bookings.BookingIdInjective | app.py:66 | Two minted ids are equal exactly when their numbers are. |
| Bookings.BookingIdExamples | app.py:66 | 1 and 2 are minted as `"BN000001"` and `"BN000002"`. |
| Bookings.IdsUpTo | app.py:66 | The ids of the first `n` numbers are `n` distinct texts, and `BookingId(k)` is among them exactly for 1 <= k <= n. |
| Bookings.CreateBooking | app.py:59-73 | If any of name, phone, property or date is absent or empty, the reply is 400 "Missing required fields." and the store is unchanged. Otherwise the reply is the id minted from count + 1. That key then holds exactly the four fields, and every other record is unchanged. |
| Bookings.UpdateBooking | app.py:79-84 | Succeeds exactly when the id is a key and the new date is truthy. Only that record's date changes, and its other fields and all other records stay. Otherwise the reply is 404 and the store is unchanged. |
| Bookings.CancelBooking | app.py:90-94 | Succeeds exactly when the id is a key, and then removes exactly that key. Otherwise the reply is 404 "Booking not found." and the store is unchanged. |
| Bookings.CreateFreshWhileSequential | app.py:66-72 | While the keys are exactly `BN000001` to the count, a create mints an unused id. The store grows by one and its keys stay sequential. |
| Bookings.CreateGrowsIffFresh | app.py:66-72 | A create grows the store exactly when the minted id is not already a key. Otherwise the size stays the same. |
| Bookings.UpdateKeepsSequential | app.py:81-82 | A date update keeps the keys sequential. |
| Bookings.CancelTwice | app.py:90-94 | Cancelling the same id twice: the first call succeeds, and the second fails with 404 and changes nothing. |
| Bookings.UpdateAfterCancel | app.py:81-92 | After a cancel, updating the cancelled id fails with 404. |
| Bookings.CreateOnEmpty | app.py:66-73 | A create on the empty store mints `BN000001` and holds only that booking. |
| Bookings.CreateUpdateTrace | app.py:58-84 | Two creates mint `BN000001` and `BN000002`. Rescheduling the first sets its date, and an id never minted cannot be updated. |
| Bookings.CancelThenCreate | app.py:66-92 | With `n` sequential bookings, cancelling the k-th and then creating mints the n-th id again. For k < n that booking is still held and is replaced. |
| Bookings.CreateAfterCancelOverwrites | app.py:66-67 | Create, create, cancel `BN000001`, create: the new booking is minted `BN000002` and replaces the second booking, and the store does not grow. |
| Ledger.NextIdUnused | app.py:66 | The id after the first `n` is not among them. |
| Ledger.Create | app.py:64-73 | Corrected create: the id is minted from the counter and differs from the id of every earlier counter value. The counter advances by one, so the id is also not a key of the store. The store grows by one and keeps every earlier booking. Missing fields give 400 and change nothing, counter included. |
| Ledger.NextIdFresh | app.py:66 | The id minted from the counter carries the counter's value, differs from every id of an earlier value and is not a key of a valid store. |
| Ledger.Step | app.py:58-94 | One request of any of the three kinds. Exactly a complete create replies `Created`, with the id of the current counter value, and only that moves the counter, by one. |
| Ledger.Run | app.py:58-94 | A sequence of requests served in order gives one reply per request, keeps the store valid and never moves the counter back. |
| Ledger.RunMintsFromCounter | app.py:58-94 | Over any sequence of requests, the creates' ids carry counter values that the sequence passes, in strictly increasing order. |
| Ledger.NeverMintedTwice | app.py:66-67 | Over any sequence of creates, reschedules and cancels, no two creates return the same id, and none returns an id minted earlier or a key already held. |
| Ledger.CancelFirstThenCreate | app.py:66-92 | From any valid store: create, create, cancel the first new id, create. The last create gets the third counter value and both later bookings are held beside the earlier ones. |
| Ledger.Update | app.py:79-84 | Reply and records are those of the as-written update. The counter and the store invariant are kept. |
| Ledger.Cancel | app.py:90-94 | Reply and records are those of the as-written cancel. The counter and the store invariant are kept. |
| Ledger.CreateAgreesWhileSequential | app.py:66-73 | Until the first cancellation, the corrected create does exactly what the as-written one does. |
| Ledger.CreateAfterCancelKeepsAll | app.py:66-67 | On the trace that loses a booking in the as-written store, the corrected store mints `BN000003` and keeps both bookings. |

## Left out

- Flask routing, `request.json`, `jsonify` and the HTTP transport are not modelled. Status codes are plain values in `Reply`.
- The `knowledge_base` endpoint (app.py:40-46) is not modelled: it returns a canned string and has no logic.
- The clock `datetime.now()` is not modelled: `today` is a parameter of `ValidateDate`.
- Unicode is not modelled. `isdigit`, `\d`, `strip`, `title` and `lower` cover ASCII only. Whitespace is the ASCII set Python's `isspace` accepts.
- Non-string JSON values are not modelled. A number or a list where text is expected makes `isdigit`, `strip` or `strptime` raise. A `None` body crashes every handler.
- Non-string truthy values in create or update are not modelled. `create_booking` and `update_booking` would store such a value.
- A non-string `name` in `collect_name` is not modelled: `name.strip()` on line 54 raises even though `is_valid` is guarded by `isinstance`.
- Concurrent access to the shared `bookings` dict is not modelled. Operations are taken one at a time.
- Process start-up (`app.run()`) is not modelled.

## Findings

| source | as written | input that shows it | evidently intended | confidence | as-written member | corrected member |
|---|---|---|---|---|---|---|
| app.py:66 | The new id is `BN` + (number of records held + 1), so after any cancellation it can name a booking still in the store, and `bookings[booking_id] = …` silently replaces it. | create, create, cancel `BN000001`, create: the third booking is minted `BN000002` and the second booking is lost. | Ids come from a counter that only grows, so an id is never minted twice and a create never replaces a booking. | high; not executed | Bookings.CreateAfterCancelOverwrites | Ledger.Create |
