/** Who is making a request, what a request leaves behind, and the three
    route decorators that gate a handler on the requester. */
module Access {
  import opened Base
  import opened Models

  /** Flask-Login's `current_user`: the anonymous placeholder, or the user row
      loaded for the session at the start of the request. */
  datatype Principal = Anonymous | SignedIn(user: User)

  // ---------------------------------------------------------------------
  // Requests and their outcomes

  datatype SyncMethod = Patch | Pop

  /** The JSON body a handler posts to the calendar webhook: the action (its
      `method` key), the event's `ext_calendar` id and the user's email. The
      shared token and calendar id are configuration constants and are not
      recorded. */
  datatype SyncIntent = SyncIntent(action: SyncMethod, eventId: string, userId: string)

  /** What a handler leaves behind: the committed store, its answer, and the
      webhook calls it made, in order. */
  datatype Outcome<T> = Outcome(store: Store, result: Result<T>, intents: seq<SyncIntent>)

  /** The `user_ids` member of a JSON body: absent (a `KeyError`), present but
      not a list, or a list of ids. */
  datatype UserIdsArg = Missing | NotAList | Ids(ids: seq<int>)

  /** The patch call that adds `user` to the course's calendar event. */
  function PatchIntent(course: Course, user: User): SyncIntent {
    SyncIntent(Patch, course.extCalendar, user.email)
  }

  // ---------------------------------------------------------------------
  // Decorators

  /** A decorator either calls the wrapped handler or aborts. */
  datatype Gate = Proceed | Deny(failure: Failure)

  /** `@restricted`: admins and presenters only. Tiers 3 and 4 are refused;
      any other signed-in tier is let through. */
  function Restricted(p: Principal): (g: Gate)
    ensures p.Anonymous? ==> g == Deny(Unauthorized)
    ensures p.SignedIn? ==> (g == Deny(Forbidden) <==> p.user.usertypeId in {3, 4})
    ensures g.Proceed? || g == Deny(Unauthorized) || g == Deny(Forbidden)
  {
    match p
    case Anonymous => Deny(Unauthorized)
    case SignedIn(u) =>
      if u.usertypeId == 3 || u.usertypeId == 4 then Deny(Forbidden) else Proceed
  }

  /** `@admin_or_self`: an admin, or the user named by the route's `user_id`. */
  function AdminOrSelf(p: Principal, userId: int): (g: Gate)
    ensures p.Anonymous? ==> g == Deny(Unauthorized)
    ensures p.SignedIn? ==>
      (g.Proceed? <==> p.user.usertypeId == SuperAdminTier || p.user.id == userId)
    ensures g.Proceed? || g == Deny(Unauthorized) || g == Deny(Forbidden)
  {
    match p
    case Anonymous => Deny(Unauthorized)
    case SignedIn(u) =>
      if u.usertypeId != 1 && u.id != userId then Deny(Forbidden) else Proceed
  }

  /** `@admin_only`. */
  function AdminOnly(p: Principal): (g: Gate)
    ensures p.Anonymous? ==> g == Deny(Unauthorized)
    ensures p.SignedIn? ==> (g.Proceed? <==> p.user.usertypeId == SuperAdminTier)
    ensures g.Proceed? || g == Deny(Unauthorized) || g == Deny(Forbidden)
  {
    match p
    case Anonymous => Deny(Unauthorized)
    case SignedIn(u) => if u.usertypeId != 1 then Deny(Forbidden) else Proceed
  }

  /** Every wrapper answers an anonymous request with 401 before looking at a
      role. */
  lemma AnonymousIsUnauthorizedEverywhere(userId: int)
    ensures Restricted(Anonymous) == Deny(Unauthorized)
    ensures AdminOrSelf(Anonymous, userId) == Deny(Unauthorized)
    ensures AdminOnly(Anonymous) == Deny(Unauthorized)
  {
  }

  /** `admin_only` is the strictest gate: whatever passes it passes the other
      two, for every route argument. */
  lemma AdminOnlyIsStrictest(p: Principal, userId: int)
    requires AdminOnly(p) == Proceed
    ensures Restricted(p) == Proceed
    ensures AdminOrSelf(p, userId) == Proceed
  {
  }

  /** On the four tiers the application defines, `restricted` lets through
      exactly the SuperAdmin and Presenter tiers, as its docstring says. */
  lemma RestrictedMeansStaff(u: User)
    requires 1 <= u.usertypeId <= 4
    ensures Restricted(SignedIn(u)) == Proceed <==>
      u.usertypeId == SuperAdminTier || u.usertypeId == PresenterTier
  {
  }

  /** A signed-in user always passes `admin_or_self` for their own id, and a
      non-admin never passes it for anyone else's. */
  lemma AdminOrSelfIsOwnership(u: User, userId: int)
    ensures AdminOrSelf(SignedIn(u), u.id) == Proceed
    ensures u.usertypeId != SuperAdminTier && userId != u.id ==>
      AdminOrSelf(SignedIn(u), userId) == Deny(Forbidden)
  {
  }
}
