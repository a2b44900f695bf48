/** The confirmation links that the notification emails carry. An id is
    written in decimal between a fixed prefix and the suffix "/confirm";
    parsing a link gives back the record it points at. */
module Links {
  import opened Schema

  const TripsPrefix: string := "https://localhost:3333/trips/"
  const ParticipantsPrefix: string := "https://localhost:3333/participants/"
  const ConfirmSuffix: string := "/confirm"

  /** What a confirmation link points at. */
  datatype Target = TripConfirm(tripId: Id) | ParticipantConfirm(participantId: Id)

  predicate IsDigit(c: char) {
    '0' <= c <= '9'
  }

  predicate AllDigits(s: string) {
    forall i :: 0 <= i < |s| ==> IsDigit(s[i])
  }

  function DigitChar(d: nat): (c: char)
    requires d < 10
    ensures IsDigit(c)
  {
    (48 + d) as char
  }

  function DigitValue(c: char): nat
    requires IsDigit(c)
  {
    c as int - 48
  }

  /** The decimal notation of n, without leading zeros. */
  function Decimal(n: nat): (s: string)
    ensures |s| > 0 && AllDigits(s)
    ensures s[0] == '0' <==> n == 0
  {
    if n < 10 then [DigitChar(n)] else Decimal(n / 10) + [DigitChar(n % 10)]
  }

  /** The number a string of digits denotes. */
  function DecimalValue(s: string): nat
    requires AllDigits(s)
  {
    if s == [] then 0 else DecimalValue(s[..|s| - 1]) * 10 + DigitValue(s[|s| - 1])
  }

  lemma {:induction false} DecimalRoundTrip(n: nat)
    ensures DecimalValue(Decimal(n)) == n
  {
    if n >= 10 {
      var s := Decimal(n);
      assert s[..|s| - 1] == Decimal(n / 10);
      DecimalRoundTrip(n / 10);
    }
  }

  /** The link text, as the route handlers build it. */
  function Url(t: Target): string {
    match t
    case TripConfirm(id) => TripsPrefix + Decimal(id) + ConfirmSuffix
    case ParticipantConfirm(id) => ParticipantsPrefix + Decimal(id) + ConfirmSuffix
  }

  /** u is prefix, then a non-empty run of digits, then "/confirm". */
  predicate HasShape(u: string, prefix: string) {
    && |u| > |prefix| + |ConfirmSuffix|
    && u[..|prefix|] == prefix
    && u[|u| - |ConfirmSuffix|..] == ConfirmSuffix
    && AllDigits(u[|prefix|..|u| - |ConfirmSuffix|])
  }

  function IdIn(u: string, prefix: string): nat
    requires HasShape(u, prefix)
  {
    DecimalValue(u[|prefix|..|u| - |ConfirmSuffix|])
  }

  /** Reads a confirmation link back, as the router matches the paths
      /trips/:tripId/confirm and /participants/:participantId/confirm. */
  function ParseUrl(u: string): Option<Target> {
    if HasShape(u, TripsPrefix) then Some(TripConfirm(IdIn(u, TripsPrefix)))
    else if HasShape(u, ParticipantsPrefix) then Some(ParticipantConfirm(IdIn(u, ParticipantsPrefix)))
    else None
  }

  /** Every link a handler sends leads back to the record it was made for. */
  lemma ParseUrlRoundTrip(t: Target)
    ensures ParseUrl(Url(t)) == Some(t)
  {
    var u := Url(t);
    match t
    case TripConfirm(id) =>
      var d := Decimal(id);
      assert u[|TripsPrefix|..|u| - |ConfirmSuffix|] == d;
      assert HasShape(u, TripsPrefix);
      DecimalRoundTrip(id);
    case ParticipantConfirm(id) =>
      var d := Decimal(id);
      assert u[23] == 'p' != TripsPrefix[23];
      assert !HasShape(u, TripsPrefix);
      assert u[|ParticipantsPrefix|..|u| - |ConfirmSuffix|] == d;
      assert HasShape(u, ParticipantsPrefix);
      DecimalRoundTrip(id);
  }

  /** Different records get different links. */
  lemma UrlInjective(a: Target, b: Target)
    requires Url(a) == Url(b)
    ensures a == b
  {
    ParseUrlRoundTrip(a);
    ParseUrlRoundTrip(b);
  }
}
