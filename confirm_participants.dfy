/** GET /participants/:participantId/confirm: marks an invitee as attending,
    once. This handler signals its failures by throwing. */
module ConfirmParticipantsRoute {
  import opened Schema
  import opened Store

  method ConfirmParticipant(db: Db, participantId: Id) returns (r: Response)
    requires db.Valid()
    modifies db
    ensures db.Valid()
    ensures participantId !in old(db.participants) ==> r == Thrown(NotFound) && unchanged(db)
    ensures participantId in old(db.participants) && old(db.participants[participantId].isConfirmed) ==>
      r == Thrown(AlreadyConfirmed) && unchanged(db)
    ensures participantId in old(db.participants) && !old(db.participants[participantId].isConfirmed) ==>
      && r == Reply(200, ParticipantRef(participantId))
      && db.participants == old(db.participants)[participantId :=
                              old(db.participants[participantId]).(isConfirmed := true)]
      && db.trips == old(db.trips)
      && db.activities == old(db.activities)
      && db.outbox == old(db.outbox)
      && db.nextId == old(db.nextId)
  {
    if participantId !in db.participants {
      return Thrown(NotFound);
    }
    var participant := db.participants[participantId];
    if participant.isConfirmed {
      return Thrown(AlreadyConfirmed);
    }
    db.participants := db.participants[participantId := participant.(isConfirmed := true)];
    return Reply(200, ParticipantRef(participantId));
  }

  /** Confirming a participant twice: the second attempt is always refused. */
  method ConfirmParticipantTwice(db: Db, participantId: Id) returns (first: Response, second: Response)
    requires db.Valid()
    modifies db
    ensures participantId !in old(db.participants) ==> first == second == Thrown(NotFound)
    ensures participantId in old(db.participants) ==> second == Thrown(AlreadyConfirmed)
    ensures participantId in old(db.participants) ==>
      (first == Reply(200, ParticipantRef(participantId)) <==> !old(db.participants[participantId].isConfirmed))
  {
    first := ConfirmParticipant(db, participantId);
    second := ConfirmParticipant(db, participantId);
  }
}
