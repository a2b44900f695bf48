/** PUT /trips/:tripId: overwrites a trip's destination and dates after
    checking that the trip exists and the new dates are acceptable. */
module UpdateTripRoute {
  import opened Schema
  import opened Store

  method UpdateTrip(db: Db, now: int, tripId: Id, destination: string, startsAt: int, endsAt: int)
    returns (r: Response)
    requires db.Valid()
    requires Utf16Length(destination) >= 4
    modifies db
    ensures db.Valid()
    ensures tripId !in old(db.trips) ==> r == Reply(400, Message(NotFound)) && unchanged(db)
    // the date checks run only once the trip is found
    ensures tripId in old(db.trips) && startsAt < now ==>
      r == Reply(400, Message(InvalidStart)) && unchanged(db)
    // strict comparison: a trip may end at the instant it starts
    ensures tripId in old(db.trips) && now <= startsAt && endsAt < startsAt ==>
      r == Reply(400, Message(InvalidEnd)) && unchanged(db)
    ensures tripId in old(db.trips) && now <= startsAt <= endsAt ==>
      && r == Reply(200, TripRef(tripId))
      && db.trips == old(db.trips)[tripId := old(db.trips[tripId]).(destination := destination,
                                                                      startsAt := startsAt, endsAt := endsAt)]
      && db.participants == old(db.participants)
      && db.activities == old(db.activities)
      && db.outbox == old(db.outbox)
      && db.nextId == old(db.nextId)
  {
    if tripId !in db.trips {
      return Reply(400, Message(NotFound));
    }
    if IsBefore(startsAt, now) {
      return Reply(400, Message(InvalidStart));
    }
    if IsBefore(endsAt, startsAt) {
      return Reply(400, Message(InvalidEnd));
    }
    var trip := db.trips[tripId];
    db.trips := db.trips[tripId := trip.(destination := destination, startsAt := startsAt, endsAt := endsAt)];
    return Reply(200, TripRef(tripId));
  }
}
