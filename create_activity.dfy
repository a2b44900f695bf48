/** POST /trips/:tripId/activities: stores an activity of a trip when it
    falls inside the trip's dates, both ends included. */
module CreateActivityRoute {
  import opened Schema
  import opened Store

  method CreateActivity(db: Db, tripId: Id, title: string, occursAt: int) returns (r: Response)
    requires db.Valid()
    requires Utf16Length(title) >= 4
    modifies db
    ensures db.Valid()
    ensures tripId !in old(db.trips) ==> r == Reply(400, Message(NotFound)) && unchanged(db)
    ensures tripId in old(db.trips) && occursAt < old(db.trips[tripId].startsAt) ==>
      r == Reply(400, Message(InvalidActivityTime)) && unchanged(db)
    ensures tripId in old(db.trips) && occursAt > old(db.trips[tripId].endsAt) ==>
      r == Reply(400, Message(InvalidActivityTime)) && unchanged(db)
    // the window is inclusive at both ends
    ensures tripId in old(db.trips) && old(db.trips[tripId].startsAt) <= occursAt <= old(db.trips[tripId].endsAt) ==>
      && r.Reply? && r.status == 201 && r.payload.ActivityRef?
      && r.payload.activityId !in old(db.activities)
      && db.activities == old(db.activities)[r.payload.activityId := Activity(title, occursAt, tripId)]
      && db.trips == old(db.trips)
      && db.participants == old(db.participants)
      && db.outbox == old(db.outbox)
  {
    if tripId !in db.trips {
      return Reply(400, Message(NotFound));
    }
    var trip := db.trips[tripId];
    if IsBefore(occursAt, trip.startsAt) {
      return Reply(400, Message(InvalidActivityTime));
    }
    if IsAfter(occursAt, trip.endsAt) {
      return Reply(400, Message(InvalidActivityTime));
    }
    var id := db.FreshId();
    db.activities := db.activities[id := Activity(title, occursAt, tripId)];
    return Reply(201, ActivityRef(id));
  }
}
