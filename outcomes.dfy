/** Results and failure kinds shared by the calendar and meet controllers.
    Each failure the controllers answer with a 4xx status is one `Error`
    constructor; `StatusCode` gives the HTTP status the controller sends. */
module Outcomes {

  datatype Option<+T> = None | Some(value: T)

  datatype Result<+T> = Ok(value: T) | Err(error: Error)

  datatype Error =
    | MissingDay        // GET /calendar/week without a `day` query parameter
    | MalformedDate     // a date string that `new Date(...)` cannot parse
    | BlankName         // a meet name that is missing or empty after trimming
    | MeetNotFound      // no group row with that id
    | NotOwner          // update or delete by someone other than the owner
    | NotOwnerNorSelf   // exit/kick by someone who is neither the owner nor the target
    | OwnerIsTarget     // exit/kick whose target is the owner
    | MemberNotFound    // exit/kick whose target has no membership row
    | AlreadyMember     // join that hits the (group_id, user_id) primary key

  /** The HTTP status each failure is answered with. */
  function StatusCode(e: Error): (code: int)
    ensures code in {400, 403, 404, 409}
    ensures code == 404 <==> e in {MeetNotFound, MemberNotFound}
    ensures code == 403 <==> e in {NotOwner, NotOwnerNorSelf}
    ensures code == 409 <==> e == AlreadyMember
  {
    match e
    case MissingDay | MalformedDate | BlankName | OwnerIsTarget => 400
    case MeetNotFound | MemberNotFound => 404
    case NotOwner | NotOwnerNorSelf => 403
    case AlreadyMember => 409
  }

  /** A date string as the request carries it, after `new Date(...)`:
      the empty string (falsy in JavaScript), a string that yields an
      invalid date, or a valid calendar day (a day number, day 0 being
      1970-01-01). `None` around it stands for an absent field. */
  datatype DateText = EmptyText | Malformed | OnDay(day: int)
}
