/** The reservation engine of `main.py`: date validation, the availability query, and the
    create, update, cancel and read operations over the reservation collection. The database
    collection is modelled as a sequence of documents in storage order; the HTTP layer as
    the `HttpException` values the handlers raise or return. */
module Reservations {
  import opened Wrappers
  import opened Calendar
  import opened IsoDate

  /** One stored document: who reserved, the first and last day as text, and the room. */
  datatype Reservation = Reservation(name: string, startDate: string, endDate: string, roomId: int)

  /** FastAPI's `HTTPException(status_code, detail)`. */
  datatype HttpException = HttpException(statusCode: int, detail: string)

  const DateOutOfRange := HttpException(422, "Date out of range")
  const DatesOutOfOrder := HttpException(400, "The start date must come before the end date.")
  const RoomOutOfRange := HttpException(400, "We only have room id 1-10.")
  const RoomNotAvailable := HttpException(400, "Sorry, Room not available.")
  const ReservationNotAvailable := HttpException(400, "Reservation not available.")
  const ReservationNotFound := HttpException(400, "Reservation not found.")

  /** The rooms that exist: `range(1, 11)`. */
  predicate RoomExists(roomId: int) {
    1 <= roomId <= 10
  }

  // ---------------------------------------------------------------------------
  // Date validation
  // ---------------------------------------------------------------------------

  /** What the model relies on of `datetime.strptime(text, "%Y-%m-%d")`: whatever it accepts
      is a date of the calendar, and it accepts the canonical text of every such date. */
  ghost predicate StrptimeLike(strptime: string -> Option<Date>) {
    (forall text :: strptime(text).Some? ==> ValidDate(strptime(text).value)) &&
    (forall d :: ValidDate(d) ==> strptime(Format(d)) == Some(d))
  }

  /** `validate_date`: parse both texts (422 if either fails), reject an end before the
      start (400), and return both dates in canonical text. */
  function ValidateDate(strptime: string -> Option<Date>, startText: string, endText: string)
    : Outcome<(string, string), HttpException>
    requires StrptimeLike(strptime)
  {
    match (strptime(startText), strptime(endText))
    case (Some(first), Some(last)) =>
      if DateLt(last, first) then Failure(DatesOutOfOrder)
      else Success((Format(first), Format(last)))
    case _ => Failure(DateOutOfRange)
  }

  /** The three outcomes of `validate_date`, and what a success returns: the canonical texts
      of the parsed dates, in an order the database's string comparison agrees with. */
  lemma ValidateDateOutcome(strptime: string -> Option<Date>, startText: string, endText: string)
    requires StrptimeLike(strptime)
    ensures var r := ValidateDate(strptime, startText, endText);
      var first, last := strptime(startText), strptime(endText);
      (r == Failure(DateOutOfRange) <==> first.None? || last.None?) &&
      (r == Failure(DatesOutOfOrder) <==> first.Some? && last.Some? && DateLt(last.value, first.value)) &&
      (r.Success? <==> first.Some? && last.Some? && DateLe(first.value, last.value)) &&
      (r.Success? ==>
        ParseCanonical(r.value.0) == first && ParseCanonical(r.value.1) == last &&
        StrLe(r.value.0, r.value.1))
  {
    var first, last := strptime(startText), strptime(endText);
    if first.Some? && last.Some? {
      ParseFormat(first.value);
      ParseFormat(last.value);
      FormatOrder(first.value, last.value);
    }
  }

  /** Validating dates that are already in canonical form and in order returns them unchanged;
      in particular the stored dates of a reservation validate to themselves. */
  lemma ValidateCanonicalUnchanged(strptime: string -> Option<Date>, startText: string, endText: string)
    requires StrptimeLike(strptime)
    requires IsCanonical(startText) && IsCanonical(endText) && StrLe(startText, endText)
    ensures ValidateDate(strptime, startText, endText) == Success((startText, endText))
  {
    FormatParse(startText);
    FormatParse(endText);
    CanonicalOrder(startText, endText);
  }

  // ---------------------------------------------------------------------------
  // Queries over the collection
  // ---------------------------------------------------------------------------

  /** `collection.find(filter)`: the documents the filter keeps, in storage order. */
  function Select(db: seq<Reservation>, keep: Reservation -> bool): seq<Reservation> {
    if |db| == 0 then []
    else Select(db[..|db| - 1], keep) + (if keep(db[|db| - 1]) then [db[|db| - 1]] else [])
  }

  /** A document is selected exactly when it is stored and the filter keeps it. */
  lemma {:induction false} SelectMembers(db: seq<Reservation>, keep: Reservation -> bool, doc: Reservation)
    ensures doc in Select(db, keep) <==> doc in db && keep(doc)
  {
    if |db| > 0 {
      SelectMembers(db[..|db| - 1], keep, doc);
      assert db == db[..|db| - 1] + [db[|db| - 1]];
    }
  }

  /** Selection keeps storage order: selecting from two stretches of the collection is
      selecting from each and concatenating. */
  lemma {:induction false} SelectAppend(a: seq<Reservation>, b: seq<Reservation>, keep: Reservation -> bool)
    ensures Select(a + b, keep) == Select(a, keep) + Select(b, keep)
    decreases |b|
  {
    if |b| > 0 {
      var b' := b[..|b| - 1];
      assert (a + b)[..|a + b| - 1] == a + b';
      SelectAppend(a, b', keep);
    } else {
      assert a + b == a;
    }
  }

  /** The filter of `get_reservation_by_name`. */
  function HasName(name: string): Reservation -> bool {
    (doc: Reservation) => doc.name == name
  }

  /** The filter of `get_reservation_by_room`. */
  function InRoom(roomId: int): Reservation -> bool {
    (doc: Reservation) => doc.roomId == roomId
  }

  /** The overlap part of the filter of `room_avaliable`: a candidate interval `[first, last]`
      meets the stored interval `[s, e]` when `s <= first <= e`, or `s <= last <= e`, or
      `first <= s` and `e <= last`; all comparisons are on the stored strings. */
  predicate Overlaps(s: string, e: string, first: string, last: string) {
    (StrLe(s, first) && StrLe(first, e)) ||
    (StrLe(s, last) && StrLe(last, e)) ||
    (StrLe(first, s) && StrLe(e, last))
  }

  /** The whole filter of `room_avaliable`. */
  function ConflictsWith(roomId: int, first: string, last: string): Reservation -> bool {
    (doc: Reservation) => doc.roomId == roomId && Overlaps(doc.startDate, doc.endDate, first, last)
  }

  /** `room_avaliable`: the query for conflicting documents returns nothing. */
  function RoomAvailable(db: seq<Reservation>, roomId: int, first: string, last: string): bool {
    |Select(db, ConflictsWith(roomId, first, last))| == 0
  }

  /** A room is available exactly when no stored document for that room overlaps the candidate. */
  lemma AvailableIff(db: seq<Reservation>, roomId: int, first: string, last: string)
    ensures RoomAvailable(db, roomId, first, last) <==>
      forall k :: 0 <= k < |db| && db[k].roomId == roomId ==>
        !Overlaps(db[k].startDate, db[k].endDate, first, last)
  {
    var keep := ConflictsWith(roomId, first, last);
    var found := Select(db, keep);
    if |found| != 0 {
      SelectMembers(db, keep, found[0]);
    }
    forall k | 0 <= k < |db| && db[k].roomId == roomId && Overlaps(db[k].startDate, db[k].endDate, first, last)
      ensures |found| != 0
    {
      SelectMembers(db, keep, db[k]);
    }
  }

  /** The date a canonical string denotes. */
  function DateOf(text: string): Date
    requires IsCanonical(text)
  {
    ParseCanonical(text).value
  }

  /** Two closed date intervals share at least one calendar day. */
  ghost predicate ShareDay(first1: Date, last1: Date, first2: Date, last2: Date) {
    exists day :: ValidDate(day) && Within(day, first1, last1) && Within(day, first2, last2)
  }

  /** For well-formed intervals of canonical dates, the three-way test of `room_avaliable`
      is exactly closed-interval intersection: the two intervals share a day, a shared
      boundary day included. */
  lemma OverlapsIsSharedDay(s: string, e: string, first: string, last: string)
    requires IsCanonical(s) && IsCanonical(e) && IsCanonical(first) && IsCanonical(last)
    requires StrLe(s, e) && StrLe(first, last)
    ensures Overlaps(s, e, first, last) <==> ShareDay(DateOf(s), DateOf(e), DateOf(first), DateOf(last))
  {
    var ds, de, df, dl := DateOf(s), DateOf(e), DateOf(first), DateOf(last);
    CanonicalOrder(s, e);
    CanonicalOrder(first, last);
    CanonicalOrder(s, first);
    CanonicalOrder(first, e);
    CanonicalOrder(s, last);
    CanonicalOrder(last, e);
    CanonicalOrder(first, s);
    CanonicalOrder(e, last);
    if Overlaps(s, e, first, last) {
      var day := Later(ds, df);
      assert ValidDate(day) && Within(day, ds, de) && Within(day, df, dl);
    }
    if ShareDay(ds, de, df, dl) {
      var day :| ValidDate(day) && Within(day, ds, de) && Within(day, df, dl);
      assert Overlaps(s, e, first, last);
    }
  }

  /** A stored document as the write paths leave it: canonical dates in order, an existing room. */
  predicate WellFormed(doc: Reservation) {
    IsCanonical(doc.startDate) && IsCanonical(doc.endDate) &&
    StrLe(doc.startDate, doc.endDate) && RoomExists(doc.roomId)
  }

  predicate AllWellFormed(db: seq<Reservation>) {
    forall k :: 0 <= k < |db| ==> WellFormed(db[k])
  }

  /** Between well-formed documents the overlap test does not depend on which one is stored
      and which one is the candidate. */
  lemma OverlapsSymmetric(a: Reservation, b: Reservation)
    requires WellFormed(a) && WellFormed(b)
    ensures Overlaps(a.startDate, a.endDate, b.startDate, b.endDate) <==>
            Overlaps(b.startDate, b.endDate, a.startDate, a.endDate)
  {
    OverlapsIsSharedDay(a.startDate, a.endDate, b.startDate, b.endDate);
    OverlapsIsSharedDay(b.startDate, b.endDate, a.startDate, a.endDate);
    var da, ea, db, eb := DateOf(a.startDate), DateOf(a.endDate), DateOf(b.startDate), DateOf(b.endDate);
    if ShareDay(da, ea, db, eb) {
      var day :| ValidDate(day) && Within(day, da, ea) && Within(day, db, eb);
      assert Within(day, db, eb) && Within(day, da, ea);
    }
    if ShareDay(db, eb, da, ea) {
      var day :| ValidDate(day) && Within(day, db, eb) && Within(day, da, ea);
      assert Within(day, da, ea) && Within(day, db, eb);
    }
  }

  /** The system's invariant: no two stored reservations of one room overlap. */
  predicate NoDoubleBooking(db: seq<Reservation>) {
    forall i, j :: 0 <= i < |db| && 0 <= j < |db| && i != j && db[i].roomId == db[j].roomId ==>
      !Overlaps(db[i].startDate, db[i].endDate, db[j].startDate, db[j].endDate)
  }

  /** The invariant in calendar terms: under it, no two stored reservations of one room share
      a calendar day. */
  lemma NoDoubleBookingMeansNoSharedDay(db: seq<Reservation>)
    requires AllWellFormed(db) && NoDoubleBooking(db)
    ensures forall i, j :: 0 <= i < |db| && 0 <= j < |db| && i != j && db[i].roomId == db[j].roomId ==>
      !ShareDay(DateOf(db[i].startDate), DateOf(db[i].endDate), DateOf(db[j].startDate), DateOf(db[j].endDate))
  {
    forall i, j | 0 <= i < |db| && 0 <= j < |db| && i != j && db[i].roomId == db[j].roomId
      ensures !ShareDay(DateOf(db[i].startDate), DateOf(db[i].endDate), DateOf(db[j].startDate), DateOf(db[j].endDate))
    {
      OverlapsIsSharedDay(db[i].startDate, db[i].endDate, db[j].startDate, db[j].endDate);
    }
  }

  /** Appending a well-formed document after an availability scan that found nothing keeps
      the invariant (the insert of `reserve`). */
  lemma AppendKeepsNoDoubleBooking(db: seq<Reservation>, doc: Reservation)
    requires AllWellFormed(db) && NoDoubleBooking(db) && WellFormed(doc)
    requires RoomAvailable(db, doc.roomId, doc.startDate, doc.endDate)
    ensures AllWellFormed(db + [doc]) && NoDoubleBooking(db + [doc])
  {
    AvailableIff(db, doc.roomId, doc.startDate, doc.endDate);
    var db' := db + [doc];
    forall i, j | 0 <= i < |db'| && 0 <= j < |db'| && i != j && db'[i].roomId == db'[j].roomId
      ensures !Overlaps(db'[i].startDate, db'[i].endDate, db'[j].startDate, db'[j].endDate)
    {
      if j == |db| {
        assert db'[i] == db[i];
      } else if i == |db| {
        OverlapsSymmetric(db[j], doc);
      }
    }
  }

  /** Moving the dates of one document to an interval that passed the availability scan keeps
      the invariant (the `$set` of `update_reservation`). */
  lemma RewriteKeepsNoDoubleBooking(db: seq<Reservation>, k: int, first: string, last: string)
    requires AllWellFormed(db) && NoDoubleBooking(db) && 0 <= k < |db|
    requires WellFormed(db[k].(startDate := first, endDate := last))
    requires RoomAvailable(db, db[k].roomId, first, last)
    ensures var db' := db[k := db[k].(startDate := first, endDate := last)];
      AllWellFormed(db') && NoDoubleBooking(db')
  {
    AvailableIff(db, db[k].roomId, first, last);
    var moved := db[k].(startDate := first, endDate := last);
    var db' := db[k := moved];
    forall i, j | 0 <= i < |db'| && 0 <= j < |db'| && i != j && db'[i].roomId == db'[j].roomId
      ensures !Overlaps(db'[i].startDate, db'[i].endDate, db'[j].startDate, db'[j].endDate)
    {
      if j == k {
        assert db'[i] == db[i];
      } else if i == k {
        assert db'[j] == db[j];
        OverlapsSymmetric(db[j], moved);
      }
    }
  }

  /** Deleting one document keeps the invariant (the delete of `cancel_reservation`). */
  lemma RemoveKeepsNoDoubleBooking(db: seq<Reservation>, k: int)
    requires AllWellFormed(db) && NoDoubleBooking(db) && 0 <= k < |db|
    ensures var db' := db[..k] + db[k + 1..];
      AllWellFormed(db') && NoDoubleBooking(db')
  {
  }

  /** Deleting at `k` removes exactly one copy of the document there and nothing else. */
  lemma RemoveExactlyOne(db: seq<Reservation>, k: int)
    requires 0 <= k < |db|
    ensures multiset(db[..k] + db[k + 1..]) + multiset{db[k]} == multiset(db)
  {
    assert db == db[..k] + [db[k]] + db[k + 1..];
  }

  /** `update_reservation` scans the collection with the reservation's own document still in
      it: a new interval that overlaps the reservation's current interval is refused. */
  lemma OwnIntervalBlocksUpdate(db: seq<Reservation>, k: int, first: string, last: string)
    requires 0 <= k < |db|
    requires Overlaps(db[k].startDate, db[k].endDate, first, last)
    ensures !RoomAvailable(db, db[k].roomId, first, last)
  {
    SelectMembers(db, ConflictsWith(db[k].roomId, first, last), db[k]);
  }

  /** Room 3 holds 2024-01-10..2024-01-15: a request starting on its last day is refused
      (a shared boundary day is an overlap), one starting the day after is accepted. */
  lemma TouchingBoundaryConflicts()
    ensures var db := [Reservation("guest", "2024-01-10", "2024-01-15", 3)];
      !RoomAvailable(db, 3, "2024-01-15", "2024-01-20") &&
      RoomAvailable(db, 3, "2024-01-16", "2024-01-20") &&
      RoomAvailable(db, 4, "2024-01-12", "2024-01-13")
  {
    var db := [Reservation("guest", "2024-01-10", "2024-01-15", 3)];
    AvailableIff(db, 3, "2024-01-15", "2024-01-20");
    AvailableIff(db, 3, "2024-01-16", "2024-01-20");
    AvailableIff(db, 4, "2024-01-12", "2024-01-13");
    assert StrLe("2024-01-10", "2024-01-15") && StrLe("2024-01-15", "2024-01-15");
    assert !StrLe("2024-01-16", "2024-01-15") && !StrLe("2024-01-20", "2024-01-15");
    assert !StrLe("2024-01-16", "2024-01-10");
  }

  /** `find_one` with a filter on all four fields: the position of the first document equal to
      `doc`, or nothing when no document is. */
  function FirstMatch(db: seq<Reservation>, doc: Reservation): (k: Option<nat>)
    ensures k.Some? ==> k.value < |db| && db[k.value] == doc && doc !in db[..k.value]
    ensures k.None? <==> doc !in db
  {
    if |db| == 0 then None
    else if db[0] == doc then Some(0)
    else match FirstMatch(db[1..], doc)
      case None => None
      case Some(j) =>
        assert db[..j + 1] == [db[0]] + db[1..][..j];
        Some(j + 1)
  }

  // ---------------------------------------------------------------------------
  // The collection and the request handlers
  // ---------------------------------------------------------------------------

  class ReservationDb {
    /** The documents of the reservation collection, in storage order. */
    var collection: seq<Reservation>
    /** `datetime.strptime(_, "%Y-%m-%d")`, which the model does not define. */
    const strptime: string -> Option<Date>

    ghost predicate Valid()
      reads this
    {
      StrptimeLike(strptime) && AllWellFormed(collection) && NoDoubleBooking(collection)
    }

    constructor (strptime: string -> Option<Date>)
      requires StrptimeLike(strptime)
      ensures Valid() && collection == [] && this.strptime == strptime
    {
      this.strptime := strptime;
      collection := [];
    }

    /** `get_reservation_by_name`: the stored reservations made under `name`, in storage order. */
    method GetReservationByName(name: string) returns (result: seq<Reservation>)
      requires Valid()
      ensures result == Select(collection, HasName(name))
    {
      result := [];
      var i := 0;
      while i < |collection|
        invariant 0 <= i <= |collection|
        invariant result == Select(collection[..i], HasName(name))
      {
        assert collection[..i + 1][..i] == collection[..i];
        if collection[i].name == name {
          result := result + [collection[i]];
        }
        i := i + 1;
      }
      assert collection[..i] == collection;
    }

    /** `get_reservation_by_room`: the stored reservations of room `roomId`, in storage order. */
    method GetReservationByRoom(roomId: int) returns (result: seq<Reservation>)
      requires Valid()
      ensures result == Select(collection, InRoom(roomId))
    {
      result := [];
      var i := 0;
      while i < |collection|
        invariant 0 <= i <= |collection|
        invariant result == Select(collection[..i], InRoom(roomId))
      {
        assert collection[..i + 1][..i] == collection[..i];
        if collection[i].roomId == roomId {
          result := result + [collection[i]];
        }
        i := i + 1;
      }
      assert collection[..i] == collection;
    }

    /** `reserve`: dates first, then the room number, then availability; on success exactly
        one document with the normalised dates is appended. */
    method Reserve(request: Reservation) returns (outcome: Outcome<(), HttpException>)
      requires Valid()
      modifies this
      ensures Valid()
      ensures var dates := ValidateDate(strptime, request.startDate, request.endDate);
        if dates.Failure? then
          outcome == Failure(dates.error) && collection == old(collection)
        else if !RoomExists(request.roomId) then
          outcome == Failure(RoomOutOfRange) && collection == old(collection)
        else if RoomAvailable(old(collection), request.roomId, dates.value.0, dates.value.1) then
          outcome == Success(()) &&
          collection == old(collection) + [Reservation(request.name, dates.value.0, dates.value.1, request.roomId)]
        else
          outcome == Failure(RoomNotAvailable) && collection == old(collection)
    {
      var dates := ValidateDate(strptime, request.startDate, request.endDate);
      if dates.Failure? {
        return Failure(dates.error);
      }
      var (first, last) := dates.value;
      if !(1 <= request.roomId <= 10) {
        return Failure(RoomOutOfRange);
      }
      if RoomAvailable(collection, request.roomId, first, last) {
        var doc := Reservation(request.name, first, last, request.roomId);
        ValidateDateOutcome(strptime, request.startDate, request.endDate);
        AppendKeepsNoDoubleBooking(collection, doc);
        collection := collection + [doc];
        outcome := Success(());
      } else {
        outcome := Failure(RoomNotAvailable);
      }
    }

    /** `update_reservation`: look the submitted document up, validate the new dates (their
        errors come first), then move the matched document's dates if the whole collection,
        the matched document included, has no conflict with the new interval. */
    method UpdateReservation(request: Reservation, newStartText: string, newEndText: string)
      returns (outcome: Outcome<string, HttpException>)
      requires Valid()
      modifies this
      ensures Valid()
      ensures var dates := ValidateDate(strptime, newStartText, newEndText);
        var found := FirstMatch(old(collection), request);
        if dates.Failure? then
          outcome == Failure(dates.error) && collection == old(collection)
        else if found.Some? && RoomAvailable(old(collection), request.roomId, dates.value.0, dates.value.1) then
          outcome == Success("Reservation updated") &&
          collection == old(collection)[found.value := Reservation(request.name, dates.value.0, dates.value.1, request.roomId)]
        else
          outcome == Failure(ReservationNotAvailable) && collection == old(collection)
    {
      var found := FirstMatch(collection, request);
      var dates := ValidateDate(strptime, newStartText, newEndText);
      if dates.Failure? {
        return Failure(dates.error);
      }
      var (first, last) := dates.value;
      if found.Some? && RoomAvailable(collection, collection[found.value].roomId, first, last) {
        var k := found.value;
        ValidateDateOutcome(strptime, newStartText, newEndText);
        RewriteKeepsNoDoubleBooking(collection, k, first, last);
        collection := collection[k := collection[k].(startDate := first, endDate := last)];
        outcome := Success("Reservation updated");
      } else {
        outcome := Failure(ReservationNotAvailable);
      }
    }

    /** `cancel_reservation`: delete the first document equal to the submitted one. When there
        is none the handler returns the not-found exception as a value instead of raising it. */
    method CancelReservation(request: Reservation) returns (returned: Option<HttpException>)
      requires Valid()
      modifies this
      ensures Valid()
      ensures var found := FirstMatch(old(collection), request);
        if found.Some? then
          returned == None && collection == old(collection)[..found.value] + old(collection)[found.value + 1..]
        else
          returned == Some(ReservationNotFound) && collection == old(collection)
    {
      var found := FirstMatch(collection, request);
      if found.Some? {
        RemoveKeepsNoDoubleBooking(collection, found.value);
        collection := collection[..found.value] + collection[found.value + 1..];
        returned := None;
      } else {
        returned := Some(ReservationNotFound);
      }
    }
  }
}
