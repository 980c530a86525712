# Room reservation engine — Dafny model

A model of the reservation logic of a small FastAPI booking service (`main.py`). Clients
reserve one of ten rooms for a closed range of days, look reservations up by name or by
room, move the dates of a reservation, and cancel it. The service keeps its reservations in
a MongoDB collection and refuses any request that would give a room two overlapping
reservations, a shared boundary day counting as overlap.

The model has four modules:

- `Wrappers` (`wrappers.dfy`): `Option` and `Outcome` (a value, or a raised error).
- `Calendar` (`calendar.dfy`): dates as `(year, month, day)`. `ValidDate` covers years 1..9999, as
  Python's `datetime` does, and the day-of-month limits of section 5.7 of RFC 3339. `DateLe` is
  chronological order.
- `IsoDate` (`iso_date.dfy`): the canonical text `YYYY-MM-DD` of a date, which is the
  `full-date` form of section 5.6 of RFC 3339 and what Python's `str(date)` prints. It also
  defines `StrLe`, the character-by-character string order in which the database compares
  stored dates. It proves that reading the text back gives the date, that no two canonical
  strings denote one date, and that on canonical strings the string order is the date order.
- `Reservations` (`reservations.dfy`): the stored document `Reservation(name, startDate,
  endDate, roomId)`, which keeps its dates as text like the collection does. The module also holds:
  - `ValidateDate`;
  - the query behind `room_avaliable`: `Overlaps`, `ConflictsWith`, `RoomAvailable`;
  - `Select`, the model of `collection.find`;
  - `FirstMatch`, the model of `find_one`;
  - the class `ReservationDb`. Its field `collection` is the sequence of stored documents.
    Its methods are the request handlers.
  `Valid()` is the invariant every write path keeps. Every stored document has canonical
  dates in order and a room in 1..10. No two documents of one room overlap.

HTTP outcomes are `HttpException(statusCode, detail)` values, with the status codes and
messages of the source. A handler that raises returns `Failure(e)`. `cancel_reservation`
returns its not-found exception instead of raising it, so `CancelReservation` returns an
`Option<HttpException>`.

`datetime.strptime(_, "%Y-%m-%d")` is foreign code. It is the class's constant
`strptime: string -> Option<Date>`. The model assumes only `StrptimeLike` of it: whatever
it accepts is a calendar date, and it accepts the canonical text of every calendar date.

### Behaviour of the code worth knowing

- The update path keeps the reservation's own document in the availability scan
  (main.py:96-98): only the room and the new dates are passed to `room_avaliable`, and the
  old document is still stored. A new interval that overlaps the current one is refused
  (`OwnIntervalBlocksUpdate`), for example when a stay is extended by one day.
- In `update_reservation`, `validate_date` (main.py:95) runs before the `if reservation`
  test (main.py:96). A date error (422 or 400) is therefore reported even when no document
  matches. An unknown reservation with valid dates gets 400 "Reservation not available.",
  the same answer as an unavailable room.
- `cancel_reservation` returns its 400 exception as a value and does not raise it.
- `find_one`, `update_one` and `delete_one` act on the first document in storage order
  that equals the submitted one field by field.

## Model

| member | source | states |
|---|---|---|
| `IsoDate.Format` | main.py:72 | `str(date)`: four-digit year, two-digit month and day, joined by hyphens; see ParseFormat, FormatParse and FormatOrder |
| `Reservations.ValidateDate` | main.py:64-72 | 422 if either text fails to parse, 400 if the end is before the start, otherwise the two canonical texts; see ValidateDateOutcome |
| `Reservations.Overlaps` | main.py:36-39 | the three overlap conditions of the query, compared on the stored strings; see OverlapsIsSharedDay |
| `Reservations.ConflictsWith` | main.py:35-40 | the whole query filter: same room and one of the three overlap conditions |
| `Reservations.RoomAvailable` | main.py:34-45 | true when the query for conflicting documents returns nothing; see AvailableIff |
| `Reservations.Select` | main.py:42 | `collection.find`: the documents a filter keeps, in storage order; see SelectMembers and SelectAppend |
| `Reservations.HasName` | main.py:51 | the filter of the by-name read: the document's name equals the argument |
| `Reservations.InRoom` | main.py:59 | the filter of the by-room read: the document's room id equals the argument |
| `Calendar.ValidDate` | main.py:66-67 | the dates `datetime` can hold: year 1..9999, month 1..12, a day within the month's length with leap years; `StrptimeLike` guarantees parsed dates satisfy it |
| `Calendar.DateLt` | main.py:70 | `end_date < start_date` on parsed dates: strictly earlier in year, month, day order |
| `IsoDate.StrLe` | main.py:37-39 | the database's `$lte`/`$gte` on strings: character by character, a proper prefix first; see FormatOrder and CanonicalOrder |
| `Reservations.StrptimeLike` | main.py:66-67 | all the model assumes of `strptime`: what it accepts is a calendar date, and it accepts the canonical text of every calendar date |
| `Reservations.RoomExists` | main.py:79 | `room_id in range(1, 11)`: the room id is between 1 and 10 inclusive |
| `Reservations.NoDoubleBookingMeansNoSharedDay` | main.py:81-87 | under the invariant kept by the write paths, no two stored reservations of one room share a calendar day |
| `IsoDate.ParseFormat` | main.py:72 | the canonical text of a valid date reads back as that date |
| `IsoDate.FormatParse` | main.py:72 | a canonical string is the text of the date it denotes, so the text of a date is unique |
| `IsoDate.FormatOrder` | main.py:37-39 | comparing the texts of two dates as strings, as the query does, compares the dates chronologically |
| `IsoDate.CanonicalOrder` | main.py:37-39 | on canonical strings the string order is the order of the dates they denote |
| `Reservations.ValidateDateOutcome` | main.py:64-72 | 422 exactly when either text fails to parse, 400 exactly when both parse and the end is before the start, success exactly when both parse in order (equal days allowed); a success returns the canonical texts of the parsed dates, in string order |
| `Reservations.ValidateCanonicalUnchanged` | main.py:64-72 | canonical dates in order are returned unchanged |
| `Reservations.SelectMembers` | main.py:51-52 | a query returns a document exactly when it is stored and matches the filter |
| `Reservations.SelectAppend` | main.py:50-53 | query results keep storage order |
| `Reservations.AvailableIff` | main.py:34-45 | a room is available exactly when no stored document of that room meets any of the three overlap conditions |
| `Reservations.OverlapsIsSharedDay` | main.py:35-40 | for intervals of canonical dates with start <= end, the three conditions hold exactly when the two closed intervals share a calendar day, boundary days included |
| `Reservations.OverlapsSymmetric` | main.py:35-40 | between well-formed intervals the overlap test gives the same answer with stored and candidate swapped |
| `Reservations.TouchingBoundaryConflicts` | main.py:35-45 | with room 3 booked 2024-01-10..2024-01-15, 2024-01-15..2024-01-20 is refused, 2024-01-16..2024-01-20 is accepted, other rooms are unaffected |
| `Reservations.AppendKeepsNoDoubleBooking` | main.py:81-87 | inserting a well-formed document after an empty availability scan keeps every room free of overlapping reservations |
| `Reservations.RewriteKeepsNoDoubleBooking` | main.py:96-100 | moving one document's dates to an interval that passed the scan keeps every room free of overlapping reservations |
| `Reservations.RemoveKeepsNoDoubleBooking` | main.py:108-110 | deleting a document keeps the invariant |
| `Reservations.RemoveExactlyOne` | main.py:110 | deletion removes one copy of the matched document and keeps all the others |
| `Reservations.OwnIntervalBlocksUpdate` | main.py:96-98 | an update whose new interval overlaps the reservation's own current interval is refused, because the scan still sees the old document |
| `Reservations.FirstMatch` | main.py:94 | the lookup finds the first stored document equal to the submitted one in all four fields, or nothing exactly when none is stored |
| `Reservations.ReservationDb.constructor` | main.py:29 | the collection starts empty and satisfies the invariant |
| `Reservations.ReservationDb.GetReservationByName` | main.py:48-53 | from a valid store, returns exactly the stored documents with that name, in storage order, and changes nothing |
| `Reservations.ReservationDb.GetReservationByRoom` | main.py:56-61 | from a valid store, returns exactly the stored documents of that room, in storage order, and changes nothing |
| `Reservations.ReservationDb.Reserve` | main.py:75-89 | date errors first; then 400 for a room outside 1..10; then 400 if the room is taken; otherwise exactly one document with the name, normalised dates and room is appended; every failure leaves the collection unchanged; the invariant is kept |
| `Reservations.ReservationDb.UpdateReservation` | main.py:92-103 | date errors first; then 400 unless a document equal to the submitted one exists and the whole collection, that document included, has no conflict with the new interval; on success only the start and end of the first matching document change; failures change nothing; the invariant is kept |
| `Reservations.ReservationDb.CancelReservation` | main.py:106-112 | deletes the first document equal to the submitted one and returns nothing; when there is none, returns the 400 not-found exception as a value and changes nothing; the invariant is kept |

## Left out

- MongoDB connection, `.env` credentials and URL building (main.py:9-15, main.py:25-29): configuration and I/O. The collection starts empty, and documents written by other programs are not modelled.
- FastAPI routing, request-body parsing by pydantic, and JSON serialisation. The `{"result": [...]}` wrapper of the read endpoints is not modelled; the methods return the list. The HTTP status that a returned (not raised) exception produces is not modelled.
- The `_id` field and its projection: documents carry only the four submitted fields.
- The exact strings `datetime.strptime` accepts, which is lenient foreign code: it is the abstract `strptime`, constrained only by `StrptimeLike`.
- Concurrency: the check-then-write race between simultaneous requests is out of scope. Each handler runs as one indivisible step.
- Reservations.ReservationDb.GetReservationByRoom: a room id outside the signed 64-bit range (-2^63..2^63-1) matches no document under the invariant (every stored room is in 1..10), so the result is `[]`. In the source the database driver cannot encode such an int and raises while building the query (main.py:59), and the service answers 500. The model's integers are unbounded.
- Reservations.ReservationDb.UpdateReservation: a submitted room id outside the signed 64-bit range matches no document under the invariant, so the result is a date error or 400 "Reservation not available.". In the source the driver raises while encoding the lookup (main.py:94), before the dates are validated, and the service answers 500.
- Reservations.ReservationDb.CancelReservation: a submitted room id outside the signed 64-bit range matches no document under the invariant, so the not-found exception is returned. In the source the driver raises while encoding the lookup (main.py:108), and the service answers 500. `Reserve` is not affected, because it rejects rooms outside 1..10 before any query (main.py:79).
- Character comparison: the database compares UTF-8 bytes, the model compares characters. The two orders agree on the ASCII digits and hyphens of stored dates.
