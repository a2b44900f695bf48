# Trip planner workflow, modelled in Dafny

A model of the route handlers of a small trip-planning REST backend (Fastify,
Prisma and Nodemailer in TypeScript). The handlers create a trip together with
its owner and invitees, update a trip's dates, confirm a trip and mail the
invitees, confirm an invitee, add an activity within the trip's dates, and list
a trip's activities day by day.

The store the handlers talk to is one class, `Store.Db`. It holds the trips,
participants and activities as maps keyed by id, and an `outbox` that records
every mail handed to the transport: the recipient's address and the
confirmation link the mail carries. Ids come from a counter inside the store.
`Db.Valid()` states that every key came from that counter and that every
participant and every activity belongs to a stored trip. Each state-changing
route is a method over a `Db`. It returns a `Response`: either a `Reply` with
an HTTP status and a payload, or `Thrown` for a handler that throws. Its
postcondition says what every branch returns and what the store holds
afterwards, and that everything else is unchanged. The activity listing writes
nothing, so it is a pure function of the trips and of the ordered rows the
query returns. Wall-clock "now" is a parameter. Timestamps are integer
milliseconds. A calendar day is `Day(t) = t / DAY`, with `DAY = 86 400 000`.

Files:

- `schema.dfy`: records, replies, `Day`, and the `IsBefore`/`IsAfter` comparisons.
- `links.dfy`: confirmation links. An id is written in decimal. `ParseUrl` reads
  a link back, the way the router matches `/trips/:tripId/confirm`.
- `store.dfy`: the store class, its id generator and the bulk participant insert.
- `create_trip.dfy`, `confirm_trip.dfy`, `update_trip.dfy`, `create_activity.dfy`,
  `confirm_participants.dfy`, `get_activities.dfy`: one module per route file.

Three behaviours of the handlers worth noting:

- `confirmParticipants` throws on both of its failures, where the other
  handlers reply 400.
  The model returns `Thrown(NotFound)` and `Thrown(AlreadyConfirmed)`.
- On success, `confirmParticipants` returns the plain object without setting a
  status, so Fastify answers with its default 200, where the other confirmation
  route answers 201.
- `createTrip` stores the trip and all its participants before it checks the
  end time. When the trip ends before it starts, the reply is 400 but the
  records stay in the store. `CreateTripRoute.CreateTrip` states exactly that.

## Model

| member | source | states |
|---|---|---|
| `Schema.Day` | src/routes/getActivities.ts:49 | the calendar day that isSame(…, "day") compares: floor division of the timestamp by DAY, also below zero; DayShift states how it moves |
| `Schema.IsBefore` | src/routes/createTrip.ts:34 | dayjs isBefore on two instants: strictly earlier (also createTrip.ts:66, updateTrip.ts:36 and :40, createActivity.ts:35) |
| `Schema.IsAfter` | src/routes/createActivity.ts:39 | dayjs isAfter on two instants: strictly later |
| `Schema.Utf16Length` | src/routes/createTrip.ts:15 | the length z.string().min(4) compares: UTF-16 code units, two for a character beyond U+FFFF; zero exactly for the empty string |
| `Schema.Utf16LengthBounds` | src/routes/createTrip.ts:15 | the JavaScript length that the schema's minimum checks, in UTF-16 code units, is between the number of characters and twice that |
| `Store.Db.FreshId` | src/routes/createActivity.ts:43-49 | the generator returns an id that no trip, participant or activity carries, and keeps the invariant |
| `Store.Db.CreateParticipants` | src/routes/createTrip.ts:43-62 | createMany stores each row under its own fresh id, in order, with distinct ids; existing participants are untouched |
| `Links.Decimal` | src/routes/createTrip.ts:73 | an id is written as a non-empty string of decimal digits, starting with 0 only for the id 0 |
| `Links.Url` | src/routes/confirmTrip.ts:62 | the link text: the trips or participants prefix, the id in decimal, then /confirm (createTrip.ts:73 builds the trip form) |
| `Links.DecimalRoundTrip` | src/routes/createTrip.ts:73 | reading the decimal notation of an id gives the id back |
| `Links.ParseUrlRoundTrip` | src/routes/confirmTrip.ts:62 | parsing a trip or participant confirmation link gives back the record it was built for |
| `Links.UrlInjective` | src/routes/confirmTrip.ts:62 | two different records never get the same link |
| `CreateTripRoute.Invitee` | src/routes/createTrip.ts:53-58 | one invitee row: empty name, the invited address, not owner, not confirmed, tied to the trip |
| `CreateTripRoute.Invitees` | src/routes/createTrip.ts:52-59 | emails_invite.map: one invitee row per invited address, in order |
| `CreateTripRoute.Roster` | src/routes/createTrip.ts:45-60 | the createMany data: the owner row, then the invitee rows |
| `CreateTripRoute.InviteesAt` | src/routes/createTrip.ts:52-59 | the i-th invitee row is a nameless, unconfirmed non-owner with the i-th invited address |
| `CreateTripRoute.RosterShape` | src/routes/createTrip.ts:43-60 | a new trip gets 1 + number-of-invites participants, all tied to it: the confirmed owner with owner_name and owner_email first, then one invitee per address in invite order |
| `CreateTripRoute.NewTripNonOwners` | src/routes/createTrip.ts:38-64 | after the insert, the trip's non-owners are exactly the invitee rows just created |
| `CreateTripRoute.CreateTrip` | src/routes/createTrip.ts:24-105 | start in the past: 400 and no change at all. Otherwise the trip (unconfirmed) and its roster are stored under fresh ids. Then an end before the start gives 400 with no mail. Success mails only the owner the /trips/id/confirm link and replies 201 with the new id |
| `Store.NonOwnerIds` | src/routes/confirmTrip.ts:26-31 | the include filter: the ids of the trip's participants with is_owner false |
| `ConfirmTripRoute.Invitation` | src/routes/confirmTrip.ts:62-68 | one invitation: to the participant's address, carrying /participants/id/confirm |
| `ConfirmTripRoute.Invitations` | src/routes/confirmTrip.ts:60-68 | the mails sent for a sequence of participant ids, in that order |
| `ConfirmTripRoute.SendInvitations` | src/routes/confirmTrip.ts:59-87 | each participant of the given set is mailed exactly once, in some order, and nothing else is sent |
| `ConfirmTripRoute.InvitationsAt` | src/routes/confirmTrip.ts:60-68 | the i-th invitation goes to the i-th participant's address and carries that participant's own /participants/id/confirm link |
| `ConfirmTripRoute.InvitationLinksDistinct` | src/routes/confirmTrip.ts:59-87 | invitations to distinct participants carry distinct links |
| `ConfirmTripRoute.ConfirmTrip` | src/routes/confirmTrip.ts:19-90 | unknown trip or already confirmed: 400 and no change. Otherwise only the trip's is_confirmed becomes true; exactly one mail per non-owner participant of the trip, none to the owner; 201 with the tripId |
| `ConfirmTripRoute.ConfirmTripTwice` | src/routes/confirmTrip.ts:39-41 | of two confirmations run one after the other, the second is refused as already confirmed, and the first succeeds exactly when the trip was unconfirmed |
| `UpdateTripRoute.UpdateTrip` | src/routes/updateTrip.ts:22-56 | unknown trip, then start in the past, then end before start (strict, so end == start is accepted) give 400 and no change. Otherwise only destination, starts_at and ends_at of that trip are overwritten; 200 with the id |
| `CreateActivityRoute.CreateActivity` | src/routes/createActivity.ts:21-52 | unknown trip, or occurs_at before the start or after the end: 400 and no change. Both ends of the window are accepted. Otherwise exactly one activity with the given title, time and trip is added under a fresh id; trips untouched; 201 with that id |
| `ConfirmParticipantsRoute.ConfirmParticipant` | src/routes/confirmParticipants.ts:16-43 | unknown participant throws NotFound, an already confirmed one throws AlreadyConfirmed, both without change. Otherwise only its is_confirmed becomes true; the reply carries the requested id |
| `ConfirmParticipantsRoute.ConfirmParticipantTwice` | src/routes/confirmParticipants.ts:29-31 | of two confirmations run one after the other, the second throws AlreadyConfirmed |
| `GetActivitiesRoute.DiffDays` | src/routes/getActivities.ts:38-41 | the whole days elapsed from earlier to later, truncated toward zero: n days with n·DAY no further from zero than the difference and (n ± 1)·DAY beyond it |
| `GetActivitiesRoute.BucketCount` | src/routes/getActivities.ts:43 | Array.from's length: at least one bucket for a trip that does not end before it starts, none exactly when the end is a day or more before the start |
| `GetActivitiesRoute.Buckets` | src/routes/getActivities.ts:43-52 | the .map over the day indexes: bucket i dated start + i days, holding the rows on that date's day |
| `GetActivitiesRoute.OnDay` | src/routes/getActivities.ts:48-50 | the filter keeps exactly the rows on the given day and never adds a row or a copy of one |
| `GetActivitiesRoute.OnDaySorted` | src/routes/getActivities.ts:25-28 | filtering rows in ascending occurs_at order leaves them in ascending order |
| `GetActivitiesRoute.DayShift` | src/routes/getActivities.ts:44 | adding n days to a timestamp moves its calendar day by n |
| `GetActivitiesRoute.BucketsByDay` | src/routes/getActivities.ts:43-52 | bucket i is dated start + i days. The dates strictly increase and their days are consecutive. Each bucket is sorted, takes rows only from the input, and holds exactly the rows on its day |
| `GetActivitiesRoute.GetActivities` | src/routes/getActivities.ts:17-55 | unknown trip: 400. Otherwise 200 with max(0, whole-days(ends_at - starts_at) + 1) buckets, each as BucketsByDay states |
| `GetActivitiesRoute.BucketsDisjoint` | src/routes/getActivities.ts:44-50 | no activity appears in two buckets |
| `GetActivitiesRoute.BucketHoldsTripActivities` | src/routes/getActivities.ts:20-50 | given the rows the ordered query returns, bucket i holds exactly the trip's stored activities whose day is the bucket's day |
| `GetActivitiesRoute.BucketCountAgainstCalendar` | src/routes/getActivities.ts:38-43 | for a trip that does not end before it starts, the bucket count is the number of calendar days, minus one exactly when the end's time of day is earlier than the start's. For a trip that ends before it starts, it is one when the two are less than a day apart and zero otherwise, where the calendar count is one only on the same day |
| `GetActivitiesRoute.ElapsedDayCountMissesLastDay` | src/routes/getActivities.ts:38-50 | a trip from 10:00 on day 0 to 09:00 on day 2 gets 2 buckets; an activity at 08:00 on day 2 lies inside the trip and is in none of them |
| `GetActivitiesRoute.GetActivitiesByCalendarDay` | src/routes/getActivities.ts:38-52 | corrected listing: one bucket per calendar day from the start's day to the end's day, each bucket as BucketsByDay states |
| `GetActivitiesRoute.CalendarListingCoversTrip` | src/routes/getActivities.ts:43-50 | in the corrected listing, every activity inside the trip's dates is in the bucket of its own day |

## Findings

| source | as written | input that shows it | evidently intended | confidence | as-written member | corrected member |
|---|---|---|---|---|---|---|
| src/routes/getActivities.ts:38-43 | the bucket count is the number of whole 24-hour periods between start and end, plus one | starts_at 10:00 on day 0, ends_at 09:00 on day 2, an activity at 08:00 on day 2: two buckets, and the activity, which createActivity accepts, is listed under no day | one bucket per calendar day the trip touches, so that every activity inside the trip is listed | medium; not executed | `GetActivitiesRoute.ElapsedDayCountMissesLastDay` | `GetActivitiesRoute.GetActivitiesByCalendarDay` |

`GetActivitiesRoute.GetActivities` stays the model of the handler as written.
`GetActivitiesRoute.BucketCountAgainstCalendar` states how the two bucket
counts compare for every trip. For a trip that does not end before it starts,
they differ only in the case above. For a trip that ends before it starts
(createTrip stores one on its 400 reply), the listing as written has one empty
bucket when end and start are less than a day apart. The corrected listing has
a bucket only when both fall on the same calendar day. No other part of the model depends on the listing.

## Left out

- Request validation by Zod is mostly not modelled. The length minimums
  (destination, owner_name and title of at least 4) become preconditions on
  `Utf16Length`, which counts UTF-16 code units as JavaScript does. A string
  holding a lone surrogate, which JSON can carry, cannot be written as a Dafny
  string, so such inputs are outside the model. UUID and e-mail formats, and
  the coercion of dates, are not modelled.
- The Prisma query engine is replaced by maps. `findUnique` is a map lookup;
  `create` and `update` write one map entry. UUIDs are replaced by numbers from
  the store's counter. The nested create of a trip with its participants is two
  steps in the model; nothing observes the state in between.
- The ordered, filtered include of getActivities is not computed. Its result is
  an input: `Sorted` is required of it, and `IsListing` says what it holds.
- Mail delivery is left out: the sender, subject, HTML body, dates formatted
  by dayjs, and the log of the preview URL. The outbox records only the
  recipient's address and the link. The owner's display name in createTrip's
  `to` field is not recorded.
- Mail delivery always succeeds in the model. In the source a failing
  `sendMail` rejects the handler's promise after the trip is already stored or
  confirmed.
- Requests are modelled one at a time: each route is one atomic step on the
  store. In the source a handler awaits between its lookup and its update
  (src/routes/confirmTrip.ts:22 and :43, src/routes/confirmParticipants.ts:19
  and :33), so two overlapping confirmations can both succeed and mail every
  invitee twice, and createActivity can check its window against dates an
  overlapping updateTrip is replacing. `ConfirmTripTwice` and
  `ConfirmParticipantTwice` hold for requests that run one after the other.
- The `Promise.all` fan-out in confirmTrip is a sequential loop over the
  non-owner participants, in an unspecified order. `ConfirmTrip` states the
  order it used through a ghost out-parameter.
- The unused link built at src/routes/confirmTrip.ts:55 is not modelled.
- Time zones are not modelled. dayjs uses local-time calendar days (and adjusts
  `diff` by the change in zone offset); the model uses `t / DAY`. "now" is
  a parameter of the routes that read the clock.
- How Fastify turns a thrown exception into a reply is not modelled; a
  throwing handler returns `Thrown` with the error kind.
- src/server.ts is Fastify bootstrap, CORS and `listen`, and is not modelled.
  It registers only the createTrip and confirmTrip routes.
- The link, participant-listing and trip-detail routes are not part of this
  model.
