/** The persistence gateway the handlers call into, reduced to three maps
    keyed by record id, an id generator, and the outbox of notifications the
    mail transport was asked to deliver. */
module Store {
  import opened Schema

  /** after is before extended with rows[i] at the fresh key ids[i], and
      nothing else. */
  ghost predicate Inserted(before: map<Id, Participant>, after: map<Id, Participant>,
                           ids: seq<Id>, rows: seq<Participant>)
  {
    && |ids| == |rows|
    && Distinct(ids)
    && (forall i :: 0 <= i < |ids| ==> ids[i] !in before && ids[i] in after && after[ids[i]] == rows[i])
    && (forall id :: id in after <==> id in before || id in ids)
    && (forall id :: id in before ==> after[id] == before[id])
  }

  /** The ids of the trip's participants that are not its owner. */
  function NonOwnerIds(ps: map<Id, Participant>, tripId: Id): set<Id> {
    set id | id in ps && ps[id].tripId == tripId && !ps[id].isOwner
  }

  class Db {
    var trips: map<Id, Trip>
    var participants: map<Id, Participant>
    var activities: map<Id, Activity>
    var outbox: seq<Email>
    /** The generator's state: no id at or above it has been handed out. */
    var nextId: Id

    /** Every key was handed out by the generator, and every participant and
        activity belongs to a stored trip. */
    ghost predicate Valid()
      reads this
    {
      && (forall id :: id in trips ==> id < nextId)
      && (forall id :: id in participants ==> id < nextId && participants[id].tripId in trips)
      && (forall id :: id in activities ==> id < nextId && activities[id].tripId in trips)
    }

    constructor ()
      ensures Valid()
      ensures trips == map[] && participants == map[] && activities == map[] && outbox == []
    {
      trips, participants, activities, outbox := map[], map[], map[], [];
      nextId := 0;
    }

    /** An id no record of the store carries. */
    method FreshId() returns (id: Id)
      requires Valid()
      modifies this`nextId
      ensures Valid()
      ensures id !in trips && id !in participants && id !in activities
      ensures old(nextId) <= id < nextId
    {
      id := nextId;
      nextId := nextId + 1;
    }

    /** createMany: stores each row under a fresh id, in order. */
    method CreateParticipants(rows: seq<Participant>) returns (ids: seq<Id>)
      requires Valid()
      requires forall i :: 0 <= i < |rows| ==> rows[i].tripId in trips
      modifies this`participants, this`nextId
      ensures Valid()
      ensures Inserted(old(participants), participants, ids, rows)
      ensures forall i :: 0 <= i < |ids| ==> ids[i] !in trips && ids[i] !in activities
    {
      ids := [];
      var k := 0;
      while k < |rows|
        invariant 0 <= k <= |rows| && |ids| == k
        invariant Valid() && old(nextId) <= nextId
        invariant forall i :: 0 <= i < k ==> old(nextId) <= ids[i] < nextId
        invariant forall i, j :: 0 <= i < j < k ==> ids[i] < ids[j]
        invariant forall i :: 0 <= i < k ==> ids[i] in participants && participants[ids[i]] == rows[i]
        invariant forall id :: id in participants <==> id in old(participants) || id in ids
        invariant forall id :: id in old(participants) ==> participants[id] == old(participants)[id]
      {
        var id := FreshId();
        participants := participants[id := rows[k]];
        ids := ids + [id];
        k := k + 1;
      }
    }
  }
}
