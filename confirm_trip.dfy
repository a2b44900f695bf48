/** GET /trips/:tripId/confirm: marks the trip confirmed, once, and mails
    every invited participant a link to confirm their own attendance. */
module ConfirmTripRoute {
  import opened Schema
  import opened Links
  import opened Store

  /** The invitation a participant receives. */
  function Invitation(p: Participant, id: Id): Email {
    Email(p.email, Url(ParticipantConfirm(id)))
  }

  /** The invitations for the participants ids, in that order. */
  function Invitations(ps: map<Id, Participant>, ids: seq<Id>): seq<Email>
    requires forall i :: 0 <= i < |ids| ==> ids[i] in ps
  {
    if ids == [] then []
    else Invitations(ps, ids[..|ids| - 1]) + [Invitation(ps[ids[|ids| - 1]], ids[|ids| - 1])]
  }

  /** The i-th invitation goes to the i-th participant, with that
      participant's own link. */
  lemma {:induction false} InvitationsAt(ps: map<Id, Participant>, ids: seq<Id>)
    requires forall i :: 0 <= i < |ids| ==> ids[i] in ps
    ensures |Invitations(ps, ids)| == |ids|
    ensures forall i :: 0 <= i < |ids| ==>
      Invitations(ps, ids)[i] == Email(ps[ids[i]].email, Url(ParticipantConfirm(ids[i])))
  {
    if ids != [] {
      InvitationsAt(ps, ids[..|ids| - 1]);
    }
  }

  /** Distinct recipients get distinct links, so no participant is mailed twice. */
  lemma InvitationLinksDistinct(ps: map<Id, Participant>, ids: seq<Id>)
    requires forall i :: 0 <= i < |ids| ==> ids[i] in ps
    requires Distinct(ids)
    ensures |Invitations(ps, ids)| == |ids|
    ensures forall i, j :: 0 <= i < j < |ids| ==> Invitations(ps, ids)[i].link != Invitations(ps, ids)[j].link
  {
    InvitationsAt(ps, ids);
    forall i, j | 0 <= i < j < |ids|
      ensures Invitations(ps, ids)[i].link != Invitations(ps, ids)[j].link
    {
      if Url(ParticipantConfirm(ids[i])) == Url(ParticipantConfirm(ids[j])) {
        UrlInjective(ParticipantConfirm(ids[i]), ParticipantConfirm(ids[j]));
      }
    }
  }

  /** The Promise.all over the invitees: one invitation per participant of
      ids, each sent once, in some order. */
  method SendInvitations(db: Db, ids: set<Id>) returns (ghost sent: seq<Id>)
    requires ids <= db.participants.Keys
    modifies db`outbox
    ensures Distinct(sent)
    ensures forall i :: 0 <= i < |sent| ==> sent[i] in ids
    ensures forall id :: id in ids ==> id in sent
    ensures db.outbox == old(db.outbox) + Invitations(db.participants, sent)
  {
    sent := [];
    var pending := ids;
    while pending != {}
      invariant pending <= ids
      invariant Distinct(sent)
      invariant forall i :: 0 <= i < |sent| ==> sent[i] in ids && sent[i] !in pending
      invariant forall id :: id in ids ==> id in sent || id in pending
      invariant db.outbox == old(db.outbox) + Invitations(db.participants, sent)
      decreases pending
    {
      var id :| id in pending;
      db.outbox := db.outbox + [Invitation(db.participants[id], id)];
      ghost var next := sent + [id];
      assert next[..|sent|] == sent;
      sent := next;
      pending := pending - {id};
    }
  }

  method ConfirmTrip(db: Db, tripId: Id) returns (r: Response, ghost recipients: seq<Id>)
    requires db.Valid()
    modifies db
    ensures db.Valid()
    ensures tripId !in old(db.trips) ==> r == Reply(400, Message(NotFound)) && unchanged(db)
    ensures tripId in old(db.trips) && old(db.trips[tripId].isConfirmed) ==>
      r == Reply(400, Message(AlreadyConfirmed)) && unchanged(db)
    ensures tripId in old(db.trips) && !old(db.trips[tripId].isConfirmed) ==>
      && r == Reply(201, TripRef(tripId))
      && db.trips == old(db.trips)[tripId := old(db.trips[tripId]).(isConfirmed := true)]
      && db.participants == old(db.participants)
      && db.activities == old(db.activities)
      && db.nextId == old(db.nextId)
      // one invitation per non-owner participant of the trip, and no other
      && Distinct(recipients)
      && (forall i :: 0 <= i < |recipients| ==> recipients[i] in NonOwnerIds(db.participants, tripId))
      && (forall id :: id in NonOwnerIds(db.participants, tripId) ==> id in recipients)
      && db.outbox == old(db.outbox) + Invitations(db.participants, recipients)
  {
    recipients := [];
    if tripId !in db.trips {
      return Reply(400, Message(NotFound)), recipients;
    }
    var trip := db.trips[tripId];
    if trip.isConfirmed {
      return Reply(400, Message(AlreadyConfirmed)), recipients;
    }

    db.trips := db.trips[tripId := trip.(isConfirmed := true)];

    recipients := SendInvitations(db, NonOwnerIds(db.participants, tripId));
    return Reply(201, TripRef(tripId)), recipients;
  }

  /** Confirming a trip twice: the second attempt is always refused. */
  method ConfirmTripTwice(db: Db, tripId: Id) returns (first: Response, second: Response)
    requires db.Valid()
    modifies db
    ensures tripId !in old(db.trips) ==> first == second == Reply(400, Message(NotFound))
    ensures tripId in old(db.trips) ==> second == Reply(400, Message(AlreadyConfirmed))
    ensures tripId in old(db.trips) ==> (first == Reply(201, TripRef(tripId)) <==> !old(db.trips[tripId].isConfirmed))
  {
    ghost var sent;
    first, sent := ConfirmTrip(db, tripId);
    second, sent := ConfirmTrip(db, tripId);
  }
}
