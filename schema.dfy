/** The records the trip-planning routes read and write, and the shapes of
    their replies. Timestamps are milliseconds since the epoch, as a
    JavaScript Date holds them; a calendar day is a whole multiple of DAY. */
module Schema {

  /** Record identifiers. The store hands them out from a counter. */
  type Id = nat

  /** Milliseconds in one day. */
  const DAY: int := 86_400_000

  /** The calendar day a timestamp falls on (floor division, also below zero). */
  function Day(t: int): int {
    t / DAY
  }

  /** dayjs(a).isBefore(b) on two instants. */
  predicate IsBefore(a: int, b: int) {
    a < b
  }

  /** dayjs(a).isAfter(b) on two instants. */
  predicate IsAfter(a: int, b: int) {
    a > b
  }

  /** The length JavaScript gives a string, and so what z.string().min(n)
      compares: UTF-16 code units, two for a character beyond U+FFFF. */
  function Utf16Length(s: string): (n: nat)
    ensures n == 0 <==> s == []
  {
    if s == [] then 0 else (if s[0] as int > 0xFFFF then 2 else 1) + Utf16Length(s[1..])
  }

  /** A string has at least as many code units as characters, and at most
      twice as many: a minimum of 4 code units admits any string of 4
      characters or more, and no string of fewer than 2. */
  lemma {:induction false} Utf16LengthBounds(s: string)
    ensures |s| <= Utf16Length(s) <= 2 * |s|
  {
    if s != [] {
      Utf16LengthBounds(s[1..]);
    }
  }

  datatype Option<T> = None | Some(value: T)

  datatype Trip = Trip(destination: string, startsAt: int, endsAt: int, isConfirmed: bool)

  datatype Participant = Participant(name: string, email: string, isOwner: bool, isConfirmed: bool, tripId: Id)

  datatype Activity = Activity(title: string, occursAt: int, tripId: Id)

  /** An activity as a query returns it: the record together with its id. */
  datatype Row = Row(id: Id, activity: Activity)

  /** One day of the activity listing. */
  datatype Bucket = Bucket(date: int, activities: seq<Row>)

  /** A notification that was handed to the mail transport: the recipient's
      address and the confirmation link the message carries. */
  datatype Email = Email(to: string, link: string)

  datatype ErrorKind = NotFound | AlreadyConfirmed | InvalidStart | InvalidEnd | InvalidActivityTime

  datatype Payload =
    | TripRef(tripId: Id)
    | ActivityRef(activityId: Id)
    | ParticipantRef(participantId: Id)
    | Days(buckets: seq<Bucket>)
    | Message(error: ErrorKind)

  /** What a handler produces: a reply with an HTTP status and a JSON body,
      or an exception that the handler throws. */
  datatype Response = Reply(status: nat, payload: Payload) | Thrown(error: ErrorKind)

  /** No identifier occurs twice in ids. */
  predicate Distinct(ids: seq<Id>) {
    forall i, j :: 0 <= i < j < |ids| ==> ids[i] != ids[j]
  }
}
