/** POST /trips: checks the start time, stores the trip with its owner and
    invitees, checks the end time, and mails the owner the trip's
    confirmation link. */
module CreateTripRoute {
  import opened Schema
  import opened Links
  import opened Store

  /** The invitee record made for one invited address. */
  function Invitee(email: string, tripId: Id): Participant {
    Participant("", email, false, false, tripId)
  }

  /** emails_invite.map(...): one invitee per address, in order. */
  function Invitees(emails: seq<string>, tripId: Id): seq<Participant> {
    if emails == [] then [] else [Invitee(emails[0], tripId)] + Invitees(emails[1..], tripId)
  }

  /** The participant rows created together with a trip: the owner first. */
  function Roster(ownerName: string, ownerEmail: string, emails: seq<string>, tripId: Id): seq<Participant> {
    [Participant(ownerName, ownerEmail, true, true, tripId)] + Invitees(emails, tripId)
  }

  lemma {:induction false} InviteesAt(emails: seq<string>, tripId: Id)
    ensures |Invitees(emails, tripId)| == |emails|
    ensures forall i :: 0 <= i < |emails| ==> Invitees(emails, tripId)[i] == Invitee(emails[i], tripId)
  {
    if emails != [] {
      InviteesAt(emails[1..], tripId);
    }
  }

  /** One owner, confirmed, then one unconfirmed nameless invitee per
      invited address in invitation order, all tied to the trip. */
  lemma RosterShape(ownerName: string, ownerEmail: string, emails: seq<string>, tripId: Id)
    ensures var ps := Roster(ownerName, ownerEmail, emails, tripId);
      && |ps| == 1 + |emails|
      && ps[0] == Participant(ownerName, ownerEmail, true, true, tripId)
      && (forall i :: 1 <= i < |ps| ==>
            ps[i].name == "" && ps[i].email == emails[i - 1] && !ps[i].isOwner && !ps[i].isConfirmed)
      && (forall i :: 0 <= i < |ps| ==> ps[i].tripId == tripId)
  {
    InviteesAt(emails, tripId);
  }

  method CreateTrip(db: Db, now: int, destination: string, startsAt: int, endsAt: int,
                    ownerName: string, ownerEmail: string, emailsInvite: seq<string>)
    returns (r: Response, ghost tripId: Id, ghost participantIds: seq<Id>)
    requires db.Valid()
    requires Utf16Length(destination) >= 4 && Utf16Length(ownerName) >= 4
    modifies db
    ensures db.Valid()
    ensures db.activities == old(db.activities)
    // a start in the past is refused before anything is stored
    ensures IsBefore(startsAt, now) ==> r == Reply(400, Message(InvalidStart)) && unchanged(db)
    // otherwise the trip and its participants are stored, whatever the end time
    ensures !IsBefore(startsAt, now) ==>
      && tripId !in old(db.trips)
      && db.trips == old(db.trips)[tripId := Trip(destination, startsAt, endsAt, false)]
      && Inserted(old(db.participants), db.participants, participantIds,
                  Roster(ownerName, ownerEmail, emailsInvite, tripId))
      && NonOwnerIds(db.participants, tripId) == set i | 1 <= i < |participantIds| :: participantIds[i]
    // an end before the start is refused only now, and no mail goes out
    ensures !IsBefore(startsAt, now) && IsBefore(endsAt, startsAt) ==>
      r == Reply(400, Message(InvalidEnd)) && db.outbox == old(db.outbox)
    ensures !IsBefore(startsAt, now) && !IsBefore(endsAt, startsAt) ==>
      && r == Reply(201, TripRef(tripId))
      && db.outbox == old(db.outbox) + [Email(ownerEmail, Url(TripConfirm(tripId)))]
  {
    tripId := 0;
    participantIds := [];
    if IsBefore(startsAt, now) {
      return Reply(400, Message(InvalidStart)), tripId, participantIds;
    }

    var id := db.FreshId();
    tripId := id;
    db.trips := db.trips[id := Trip(destination, startsAt, endsAt, false)];
    var rows := Roster(ownerName, ownerEmail, emailsInvite, id);
    RosterShape(ownerName, ownerEmail, emailsInvite, id);
    var ids := db.CreateParticipants(rows);
    participantIds := ids;
    NewTripNonOwners(old(db.participants), db.participants, ids, rows, id);

    if IsBefore(endsAt, startsAt) {
      return Reply(400, Message(InvalidEnd)), tripId, participantIds;
    }

    db.outbox := db.outbox + [Email(ownerEmail, Url(TripConfirm(id)))];
    return Reply(201, TripRef(id)), tripId, participantIds;
  }

  /** When a trip id is new, its non-owners are the invitee rows just added. */
  lemma NewTripNonOwners(before: map<Id, Participant>, after: map<Id, Participant>,
                         ids: seq<Id>, rows: seq<Participant>, tripId: Id)
    requires Inserted(before, after, ids, rows)
    requires forall id :: id in before ==> before[id].tripId != tripId
    requires |rows| > 0 && rows[0].isOwner
    requires forall i :: 0 <= i < |rows| ==> rows[i].tripId == tripId
    requires forall i :: 1 <= i < |rows| ==> !rows[i].isOwner
    ensures NonOwnerIds(after, tripId) == set i | 1 <= i < |ids| :: ids[i]
  {
    var lhs := NonOwnerIds(after, tripId);
    var rhs := set i | 1 <= i < |ids| :: ids[i];
    forall id | id in lhs ensures id in rhs {
      assert id !in before;
      var i :| 0 <= i < |ids| && ids[i] == id;
      assert i != 0;
    }
    forall id | id in rhs ensures id in lhs {
      var i :| 1 <= i < |ids| && ids[i] == id;
      assert after[ids[i]] == rows[i];
    }
  }
}
