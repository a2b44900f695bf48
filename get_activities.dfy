/** GET /trips/:tripId/activities: the trip's activities, in ascending
    occurs_at order, split into one bucket per day of the trip. Nothing is
    written to the store, so the route is a function of what it reads: the
    trips and the trip's activity rows as the ordered query returns them. */
module GetActivitiesRoute {
  import opened Schema

  /** Ascending occurs_at, as the query's orderBy delivers the rows. */
  predicate Sorted(rows: seq<Row>) {
    forall i, j :: 0 <= i < j < |rows| ==> rows[i].activity.occursAt <= rows[j].activity.occursAt
  }

  /** rows are exactly the activities of the trip held in the store, each
      once, sorted: what the include with orderBy returns. */
  ghost predicate IsListing(rows: seq<Row>, activities: map<Id, Activity>, tripId: Id) {
    && Sorted(rows)
    && (forall k, l :: 0 <= k < l < |rows| ==> rows[k].id != rows[l].id)
    && (forall k :: 0 <= k < |rows| ==>
          rows[k].id in activities && activities[rows[k].id] == rows[k].activity && rows[k].activity.tripId == tripId)
    && (forall id :: id in activities && activities[id].tripId == tripId ==> Row(id, activities[id]) in rows)
  }

  /** dayjs(later).diff(earlier, "day"): the whole days of elapsed time,
      truncated toward zero. */
  function DiffDays(later: int, earlier: int): (n: int)
    ensures earlier <= later ==> 0 <= n && n * DAY <= later - earlier < (n + 1) * DAY
    ensures later < earlier ==> n <= 0 && (n - 1) * DAY < later - earlier <= n * DAY
  {
    var d := later - earlier;
    if d >= 0 then d / DAY else -((-d) / DAY)
  }

  /** Array.from({length: n}) with n the day difference plus one; a length
      below zero makes an empty array. */
  function BucketCount(trip: Trip): (n: nat)
    ensures trip.startsAt <= trip.endsAt ==> n >= 1
    ensures n == 0 <==> trip.startsAt - trip.endsAt >= DAY
  {
    var n := DiffDays(trip.endsAt, trip.startsAt) + 1;
    if n > 0 then n else 0
  }

  /** The filter that keeps the rows on one calendar day. */
  function OnDay(rows: seq<Row>, day: int): (r: seq<Row>)
    ensures forall x :: x in r <==> x in rows && Day(x.activity.occursAt) == day
    ensures multiset(r) <= multiset(rows)
  {
    if rows == [] then []
    else
      var rest := OnDay(rows[1..], day);
      assert rows == [rows[0]] + rows[1..];
      if Day(rows[0].activity.occursAt) == day then [rows[0]] + rest else rest
  }

  /** The filter keeps ascending order. */
  lemma {:induction false} OnDaySorted(rows: seq<Row>, day: int)
    requires Sorted(rows)
    ensures Sorted(OnDay(rows, day))
  {
    if rows != [] {
      var rest := OnDay(rows[1..], day);
      OnDaySorted(rows[1..], day);
      if Day(rows[0].activity.occursAt) == day {
        SortedCons(rows, rest);
      }
    }
  }

  /** Putting the first row of a sorted list before rows taken from the rest
      keeps them sorted. */
  lemma SortedCons(rows: seq<Row>, rest: seq<Row>)
    requires rows != [] && Sorted(rows) && Sorted(rest)
    requires forall x :: x in rest ==> x in rows[1..]
    ensures Sorted([rows[0]] + rest)
  {
    var r := [rows[0]] + rest;
    forall i, j | 0 <= i < j < |r| ensures r[i].activity.occursAt <= r[j].activity.occursAt {
      if i == 0 {
        assert r[j] in rows[1..];
      } else {
        assert r[i] == rest[i - 1] && r[j] == rest[j - 1];
      }
    }
  }

  /** count buckets, the i-th dated start + i days and holding that day's rows. */
  function Buckets(start: int, count: nat, rows: seq<Row>): seq<Bucket> {
    seq(count, i => Bucket(start + i * DAY, OnDay(rows, Day(start + i * DAY))))
  }

  /** Moving a timestamp by whole days moves its calendar day by as many. */
  lemma DayShift(t: int, n: int)
    ensures Day(t + n * DAY) == Day(t) + n
  {
    var q, m := t / DAY, t % DAY;
    assert t + n * DAY == (q + n) * DAY + m;
    DivideExactly(t + n * DAY, q + n, m);
  }

  lemma DivideExactly(x: int, q: int, m: int)
    requires x == q * DAY + m && 0 <= m < DAY
    ensures x / DAY == q
  {
  }

  /** What a day listing promises: count buckets on consecutive days from
      start, each holding, in order, exactly the rows that fall on its day.
      Rows that share an occurs_at may appear in either order: the query's
      `orderBy occurs_at` does not order them either, so the filter's
      keeping of the query order among them promises nothing more. */
  ghost predicate ByDay(bs: seq<Bucket>, start: int, count: nat, rows: seq<Row>) {
    && |bs| == count
    && (forall i :: 0 <= i < |bs| ==> bs[i].date == start + i * DAY && Day(bs[i].date) == Day(start) + i)
    && (forall i, j :: 0 <= i < j < |bs| ==> bs[i].date < bs[j].date)
    && (forall i :: 0 <= i < |bs| ==> Sorted(bs[i].activities) && multiset(bs[i].activities) <= multiset(rows))
    && (forall i, x :: 0 <= i < |bs| ==>
          (x in bs[i].activities <==> x in rows && Day(x.activity.occursAt) == Day(bs[i].date)))
  }

  lemma BucketsByDay(start: int, count: nat, rows: seq<Row>)
    requires Sorted(rows)
    ensures ByDay(Buckets(start, count, rows), start, count, rows)
  {
    var bs := Buckets(start, count, rows);
    forall i | 0 <= i < count
      ensures bs[i].date == start + i * DAY && Day(bs[i].date) == Day(start) + i
      ensures Sorted(bs[i].activities) && multiset(bs[i].activities) <= multiset(rows)
      ensures forall x :: x in bs[i].activities <==> x in rows && Day(x.activity.occursAt) == Day(bs[i].date)
    {
      DayShift(start, i);
      var r := OnDay(rows, Day(start + i * DAY));
      OnDaySorted(rows, Day(start + i * DAY));
      assert bs[i].activities == r;
    }
    forall i, j | 0 <= i < j < count ensures bs[i].date < bs[j].date {
    }
  }

  /** The handler: a missing trip is a 400, otherwise the day buckets. */
  function GetActivities(trips: map<Id, Trip>, tripId: Id, rows: seq<Row>): (r: Response)
    requires Sorted(rows)
    ensures tripId !in trips ==> r == Reply(400, Message(NotFound))
    ensures tripId in trips ==>
      && r.Reply? && r.status == 200 && r.payload.Days?
      && ByDay(r.payload.buckets, trips[tripId].startsAt, BucketCount(trips[tripId]), rows)
  {
    if tripId !in trips then Reply(400, Message(NotFound))
    else
      var trip := trips[tripId];
      BucketsByDay(trip.startsAt, BucketCount(trip), rows);
      Reply(200, Days(Buckets(trip.startsAt, BucketCount(trip), rows)))
  }

  /** No activity is listed under two days. */
  lemma BucketsDisjoint(bs: seq<Bucket>, start: int, count: nat, rows: seq<Row>, i: nat, j: nat, x: Row)
    requires ByDay(bs, start, count, rows)
    requires i < j < |bs| && x in bs[i].activities
    ensures x !in bs[j].activities
  {
  }

  /** With the rows the store's query returns, bucket i holds exactly the
      trip's stored activities on its day. */
  lemma BucketHoldsTripActivities(trips: map<Id, Trip>, activities: map<Id, Activity>, tripId: Id,
                                  rows: seq<Row>, i: nat, id: Id, a: Activity)
    requires tripId in trips && IsListing(rows, activities, tripId)
    requires i < BucketCount(trips[tripId])
    ensures var b := GetActivities(trips, tripId, rows).payload.buckets[i];
      Row(id, a) in b.activities <==>
        id in activities && activities[id] == a && a.tripId == tripId && Day(a.occursAt) == Day(b.date)
  {
    var b := GetActivities(trips, tripId, rows).payload.buckets[i];
    if id in activities && activities[id] == a && a.tripId == tripId {
      assert Row(id, a) in rows;
    }
    if Row(id, a) in b.activities {
      var k :| 0 <= k < |rows| && rows[k] == Row(id, a);
    }
  }

  /** The trip's bucket count, as calendar days from start to end. */
  function CalendarBucketCount(trip: Trip): nat {
    if Day(trip.endsAt) >= Day(trip.startsAt) then Day(trip.endsAt) - Day(trip.startsAt) + 1 else 0
  }

  /** The listing with one bucket per calendar day the trip touches. */
  function GetActivitiesByCalendarDay(trips: map<Id, Trip>, tripId: Id, rows: seq<Row>): (r: Response)
    requires Sorted(rows)
    ensures tripId !in trips ==> r == Reply(400, Message(NotFound))
    ensures tripId in trips ==>
      && r.Reply? && r.status == 200 && r.payload.Days?
      && ByDay(r.payload.buckets, trips[tripId].startsAt, CalendarBucketCount(trips[tripId]), rows)
  {
    if tripId !in trips then Reply(400, Message(NotFound))
    else
      var trip := trips[tripId];
      BucketsByDay(trip.startsAt, CalendarBucketCount(trip), rows);
      Reply(200, Days(Buckets(trip.startsAt, CalendarBucketCount(trip), rows)))
  }

  /** Every activity inside the trip's dates is listed, under the bucket of
      its own day (and, by BucketsDisjoint, under no other). */
  lemma CalendarListingCoversTrip(trips: map<Id, Trip>, tripId: Id, rows: seq<Row>, x: Row)
    requires Sorted(rows) && tripId in trips
    requires x in rows && trips[tripId].startsAt <= x.activity.occursAt <= trips[tripId].endsAt
    ensures var bs := GetActivitiesByCalendarDay(trips, tripId, rows).payload.buckets;
      var k := Day(x.activity.occursAt) - Day(trips[tripId].startsAt);
      0 <= k < |bs| && x in bs[k].activities
  {
    var trip := trips[tripId];
    DayMonotone(trip.startsAt, x.activity.occursAt);
    DayMonotone(x.activity.occursAt, trip.endsAt);
  }

  lemma DayMonotone(s: int, t: int)
    requires s <= t
    ensures Day(s) <= Day(t)
  {
  }

  /** How the listing as written compares with one bucket per calendar
      day. For a trip that does not end before it starts, it has one fewer
      bucket exactly when the trip ends at an earlier time of day than it
      starts. For a trip that ends before it starts (createTrip stores such a
      trip on its 400 reply), it has one empty bucket when less than a day
      separates end from start, where the calendar count has one only when
      both fall on the same day. */
  lemma BucketCountAgainstCalendar(trip: Trip)
    ensures trip.startsAt <= trip.endsAt ==>
      BucketCount(trip) ==
        CalendarBucketCount(trip) - (if trip.endsAt % DAY < trip.startsAt % DAY then 1 else 0)
    ensures trip.endsAt < trip.startsAt ==>
      && BucketCount(trip) == (if trip.startsAt - trip.endsAt < DAY then 1 else 0)
      && CalendarBucketCount(trip) == (if Day(trip.endsAt) == Day(trip.startsAt) then 1 else 0)
  {
    var s, e := trip.startsAt, trip.endsAt;
    var qs, ms, qe, me := s / DAY, s % DAY, e / DAY, e % DAY;
    if s <= e {
      DayMonotone(s, e);
      if me >= ms {
        DivideExactly(e - s, qe - qs, me - ms);
      } else {
        DivideExactly(e - s, qe - qs - 1, DAY + me - ms);
      }
    } else {
      DayMonotone(e, s);
      if s - e >= DAY {
        DayMonotone(e + DAY, s);
        DayShift(e, 1);
      }
    }
  }

  /** The listing as written drops the last calendar day when the trip ends
      at an earlier time of day than it starts: here the trip touches three
      days, 47 hours elapse, and an activity on the third day, inside the
      trip's dates, is in no bucket. */
  lemma ElapsedDayCountMissesLastDay()
    ensures var hour := DAY / 24;
      var trips := map[0 := Trip("Rome", 10 * hour, 2 * DAY + 9 * hour, false)];
      var rows := [Row(1, Activity("Dinner", 2 * DAY + 8 * hour, 0))];
      var bs := GetActivities(trips, 0, rows).payload.buckets;
      && trips[0].startsAt <= rows[0].activity.occursAt <= trips[0].endsAt
      && |bs| == 2
      && forall b :: b in bs ==> rows[0] !in b.activities
  {
    var hour := DAY / 24;
    var trips := map[0 := Trip("Rome", 10 * hour, 2 * DAY + 9 * hour, false)];
    var rows := [Row(1, Activity("Dinner", 2 * DAY + 8 * hour, 0))];
    var bs := GetActivities(trips, 0, rows).payload.buckets;
    assert |bs| == 2;
    assert Day(rows[0].activity.occursAt) == 2;
    forall b | b in bs ensures rows[0] !in b.activities {
      var i :| 0 <= i < |bs| && bs[i] == b;
    }
  }
}
