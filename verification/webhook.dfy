/** The calendar webhook of `webhook.js`, a Google Apps Script endpoint the
    backend posts sync calls to. `doPost` checks the shared token and
    dispatches on the body's `method`; `createEvent` builds the insert
    arguments; `userRegistration` rewrites an event's attendee list. The
    Calendar service itself is outside the model: its answers are
    parameters. */
module Webhook {
  import opened Base
  import opened Access

  /** The script's `accessKey` constant. */
  const AccessKey := "set_your_access_key_here"

  /** An element of an attendee list: an attendee object, or the `undefined`
      that `Array.prototype.concat(undefined)` appends. */
  datatype Entry = Attendee(email: string) | Undefined

  /** A body member that is either absent (`undefined`) or an array. */
  datatype JsList = Absent | List(items: seq<Entry>)

  /** The parts of an event body the script reads. */
  datatype EventBody = EventBody(hasConferenceData: bool)

  /** The parsed request body of `doPost`; `verb` is its `method` member.
      An absent string member is `None`. */
  datatype Params = Params(
    verb: Option<string>,
    token: Option<string>,
    userIds: JsList,
    calendarId: Option<string>,
    eventId: Option<string>,
    body: Option<EventBody>)

  datatype RegMethod = PatchMethod | PopMethod

  /** Where `doPost` sends a request. `NoRoute` leaves `result` undefined. */
  datatype Route = Denied | CreateRoute | RegistrationRoute(m: RegMethod) | UpdateRoute | DeleteRoute | NoRoute

  /** A JSON reply of the script, `{status, statusCode}`. */
  datatype Reply = Reply(status: string, statusCode: int)

  const ForbiddenReply := Reply("Forbidden", 403)
  const UpdatedReply := Reply("OK", 200)
  const ErrorReply := Reply("Error", 500)

  /** The token check and the method dispatch of `doPost`, with strict
      equality on both strings. */
  function Dispatch(params: Params): (r: Route)
    ensures params.token != Some(AccessKey) ==> r == Denied
    ensures params.token == Some(AccessKey) ==>
      && (r == CreateRoute <==> params.verb == Some("post"))
      && (r == RegistrationRoute(PatchMethod) <==> params.verb == Some("patch"))
      && (r == RegistrationRoute(PopMethod) <==> params.verb == Some("pop"))
      && (r == UpdateRoute <==> params.verb == Some("put"))
      && (r == DeleteRoute <==> params.verb == Some("delete"))
      && (r == NoRoute <==> params.verb !in {Some("post"), Some("patch"), Some("pop"), Some("put"), Some("delete")})
  {
    if params.token != Some(AccessKey) then Denied
    else if params.verb == Some("post") then CreateRoute
    else if params.verb == Some("patch") then RegistrationRoute(PatchMethod)
    else if params.verb == Some("pop") then RegistrationRoute(PopMethod)
    else if params.verb == Some("put") then UpdateRoute
    else if params.verb == Some("delete") then DeleteRoute
    else NoRoute
  }

  /** A wrong or missing token is refused whatever the method, and the right
      token is never refused. */
  lemma TokenGuardsEveryRoute(params: Params, verb: Option<string>)
    requires params.token != Some(AccessKey)
    ensures Dispatch(params.(verb := verb)) == Denied
    ensures Dispatch(params.(token := Some(AccessKey))) != Denied
  {
  }

  /** What `doPost` writes out: a reply record of its own, the routed
      handler's value, or `undefined` when no branch assigned `result`. */
  datatype Output<T> = Replied(reply: Reply) | Handled(value: T) | Nothing

  /** `doPost`, given the value the routed handler returns as `handled`: a
      bad token is answered with the Forbidden record before any method is
      looked at, and an unknown method writes out nothing. */
  function DoPost<T>(params: Params, handled: T): (r: Output<T>)
    ensures params.token != Some(AccessKey) ==> r == Replied(ForbiddenReply) && r.reply.statusCode == 403
    ensures r.Replied? ==> params.token != Some(AccessKey)
    ensures r.Nothing? <==> Dispatch(params) == NoRoute
    ensures r.Handled? ==> r.value == handled && Dispatch(params) !in {Denied, NoRoute}
  {
    match Dispatch(params)
    case Denied => Replied(ForbiddenReply)
    case NoRoute => Nothing
    case _ => Handled(handled)
  }

  /** The optional arguments `createEvent` passes to `Calendar.Events.insert`. */
  datatype InsertArgs = InsertArgs(sendUpdates: string, conferenceDataVersion: Option<int>)

  /** A JavaScript evaluation either returns or throws. */
  datatype JsError = TypeError | ReferenceError
  datatype Js<T> = Returned(value: T) | Threw(error: JsError)

  /** `createEvent`'s arguments: always `sendUpdates: 'all'`, and
      `conferenceDataVersion: 1` exactly when the body carries conference
      data. A missing body throws on `hasOwnProperty`. */
  function CreateEventArgs(body: Option<EventBody>): (r: Js<InsertArgs>)
    ensures body.None? ==> r == Threw(TypeError)
    ensures body.Some? ==> r.Returned? && r.value.sendUpdates == "all"
    ensures body.Some? ==> (r.value.conferenceDataVersion.Some? <==> body.value.hasConferenceData)
    ensures r.Returned? && r.value.conferenceDataVersion.Some? ==> r.value.conferenceDataVersion.value == 1
  {
    match body
    case None => Threw(TypeError)
    case Some(b) => Returned(InsertArgs("all", if b.hasConferenceData then Some(1) else None))
  }

  // ---------------------------------------------------------------------
  // userRegistration as written

  /** `a.concat(v)`: an array argument contributes its elements, an
      `undefined` one contributes itself. */
  function Concat(a: seq<Entry>, v: JsList): (r: seq<Entry>)
    ensures a <= r
    ensures v.Absent? ==> r == a + [Undefined]
    ensures v.List? ==> r[|a|..] == v.items
  {
    match v
    case Absent => a + [Undefined]
    case List(xs) => a + xs
  }

  /** The `attendees` member of the patch resource; `None` when it is
      `undefined`, which JSON serialisation drops, so the event's list is
      left as it was. */
  datatype Resource = Resource(attendees: Option<seq<Entry>>)

  /** The resource `userRegistration` builds, as written. `attendees` is the
      event's list (`None` when the event has none). The filter callback of
      `pop` reads `user.email` and then `userId`, which no scope binds: it
      throws as soon as it is called, that is on any non-empty list, with a
      `TypeError` when the first entry is `undefined` and a `ReferenceError`
      otherwise; on a missing list `filter` itself throws. */
  function RegistrationResourceAsWritten(attendees: Option<seq<Entry>>, userIds: JsList, m: RegMethod): (r: Js<Resource>)
    ensures m == PatchMethod ==> r.Returned?
    ensures m == PatchMethod && attendees.Some? ==> r == Returned(Resource(Some(Concat(attendees.value, userIds))))
    ensures m == PatchMethod && attendees.None? ==>
      r == Returned(Resource(if userIds.List? then Some(userIds.items) else None))
    ensures m == PopMethod ==>
      (r.Returned? <==> attendees.Some? && |attendees.value| == 0)
    ensures m == PopMethod && attendees.Some? && |attendees.value| > 0 ==>
      r == Threw(if attendees.value[0].Undefined? then TypeError else ReferenceError)
  {
    match m
    case PatchMethod =>
      (match attendees
       case Some(a) => Returned(Resource(Some(Concat(a, userIds))))
       case None => Returned(Resource(if userIds.List? then Some(userIds.items) else None)))
    case PopMethod =>
      (match attendees
       case None => Threw(TypeError)
       case Some(a) =>
         if |a| == 0 then Returned(Resource(Some([])))
         else if a[0].Undefined? then Threw(TypeError)
         else Threw(ReferenceError))
  }

  /** The reply of `userRegistration`: the resource errors are outside the
      `try`, so they escape; a patch that the Calendar service accepts
      (`accepted`) gives 200, one it throws on gives 500. */
  function RegistrationReply(resource: Js<Resource>, accepted: bool): (r: Js<Reply>)
    ensures resource.Threw? ==> r == Threw(resource.error)
    ensures resource.Returned? ==> r == Returned(if accepted then UpdatedReply else ErrorReply)
    ensures r.Returned? ==> r.value.statusCode in {200, 500}
  {
    match resource
    case Threw(e) => Threw(e)
    case Returned(_) => Returned(if accepted then UpdatedReply else ErrorReply)
  }

  /** The body the backend posts for a sync intent: it names the user in
      `userId`, never in `userIds`. */
  function ParamsOfIntent(intent: SyncIntent, token: string, calendarId: string): (r: Params)
    ensures r.userIds == Absent
    ensures r.eventId == Some(intent.eventId)
    ensures intent.action == Patch ==> r.verb == Some("patch")
    ensures intent.action == Pop ==> r.verb == Some("pop")
  {
    Params(Some(if intent.action == Patch then "patch" else "pop"), Some(token), Absent,
           Some(calendarId), Some(intent.eventId), None)
  }

  /** As written, a patch sent by the backend never adds the user it names:
      an existing list gains only an `undefined`, and an event with no list
      keeps none. */
  lemma PatchAsWrittenNeverAddsUser(intent: SyncIntent, token: string, calendarId: string,
                                    attendees: Option<seq<Entry>>)
    requires intent.action == Patch
    ensures var params := ParamsOfIntent(intent, token, calendarId);
      var r := RegistrationResourceAsWritten(attendees, params.userIds, PatchMethod);
      && r.Returned?
      && (attendees.Some? ==> r.value.attendees == Some(attendees.value + [Undefined]))
      && (attendees.None? ==> r.value.attendees.None?)
  {
  }

  /** As written, a pop sent by the backend throws on every event that has
      attendees, so nobody is ever removed; on a list the Calendar service
      returns, whose entries are all attendees, the error is the unbound
      `userId`. */
  lemma PopAsWrittenThrows(intent: SyncIntent, token: string, calendarId: string, attendees: seq<Entry>)
    requires intent.action == Pop && |attendees| > 0
    ensures var params := ParamsOfIntent(intent, token, calendarId);
      var r := RegistrationResourceAsWritten(Some(attendees), params.userIds, PopMethod);
      && r.Threw?
      && ((forall i :: 0 <= i < |attendees| ==> attendees[i].Attendee?) ==> r.error == ReferenceError)
  {
  }

  // ---------------------------------------------------------------------
  // userRegistration as intended

  function IsAttendee(e: Entry, email: string): bool {
    e.Attendee? && e.email == email
  }

  /** The attendee list after the intended registration change for the user
      with `email`: a patch appends them; a pop removes every entry with that
      email and keeps the rest in order. */
  function RegistrationAttendees(attendees: Option<seq<Entry>>, email: string, m: RegMethod): (r: seq<Entry>)
    ensures m == PatchMethod && attendees.Some? ==> r == attendees.value + [Attendee(email)]
    ensures m == PatchMethod && attendees.None? ==> r == [Attendee(email)]
    ensures m == PopMethod ==> forall e :: e in r <==>
      attendees.Some? && e in attendees.value && !IsAttendee(e, email)
  {
    var a := if attendees.Some? then attendees.value else [];
    match m
    case PatchMethod => a + [Attendee(email)]
    case PopMethod => Filter(a, (e: Entry) => !IsAttendee(e, email))
  }

  /** The intended `userRegistration` on a backend call: the new list, or
      the reply when the Calendar service's patch throws. */
  function UserRegistration(attendees: Option<seq<Entry>>, intent: SyncIntent, accepted: bool): (r: (Resource, Reply))
    ensures r.1 == (if accepted then UpdatedReply else ErrorReply)
    ensures r.0.attendees.Some?
    ensures intent.action == Patch ==> Attendee(intent.userId) in r.0.attendees.value
    ensures intent.action == Pop ==> forall e :: e in r.0.attendees.value ==> !IsAttendee(e, intent.userId)
  {
    var m := if intent.action == Patch then PatchMethod else PopMethod;
    (Resource(Some(RegistrationAttendees(attendees, intent.userId, m))), if accepted then UpdatedReply else ErrorReply)
  }

  /** Popping a user just patched in restores the list, when they were not on
      it before. */
  lemma PopUndoesPatch(attendees: seq<Entry>, email: string)
    requires forall e :: e in attendees ==> !IsAttendee(e, email)
    ensures RegistrationAttendees(Some(RegistrationAttendees(Some(attendees), email, PatchMethod)), email, PopMethod)
      == attendees
  {
    FilterAppend(attendees, [Attendee(email)], (e: Entry) => !IsAttendee(e, email));
    FilterKeepsAll(attendees, (e: Entry) => !IsAttendee(e, email));
  }

  /** Popping keeps the other entries in their order: it is the list with
      exactly the matching entries taken out. */
  lemma {:induction false} PopKeepsOrder(attendees: seq<Entry>, email: string)
    ensures var r := RegistrationAttendees(Some(attendees), email, PopMethod);
      && Subsequence(r, attendees)
      && (forall e :: e in r <==> e in attendees && !IsAttendee(e, email))
      && |r| + |Filter(attendees, (e: Entry) => IsAttendee(e, email))| == |attendees|
    decreases |attendees|
  {
    FilterIsSubsequence(attendees, (e: Entry) => !IsAttendee(e, email));
    if |attendees| > 0 {
      PopKeepsOrder(attendees[1..], email);
    }
  }
}
