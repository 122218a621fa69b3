/** The user handlers of `resources/users.py`: the user list with its
    decision table, single-user read, update and delete, and the list of a
    user's confirmed (attended) registrations. None of them is behind a
    decorator, so an anonymous requester fails on the first read of
    `current_user.usertype_id` or `current_user.id`. */
module UserResources {
  import opened Base
  import opened Ordering
  import opened Models
  import opened Access

  // ---------------------------------------------------------------------
  // User list

  /** The users a list request asks for: all of them, or those of one tier. */
  function Selected(users: seq<User>, userType: Option<int>): (r: seq<User>)
    ensures forall u :: u in r <==> u in users && (userType.None? || u.usertypeId == userType.value)
  {
    match userType
    case None => users
    case Some(t) => Filter(users, (u: User) => u.usertypeId == t)
  }

  /** `UserListAPI.get`. `userType` is the optional `user_type` query
      argument; Python treats a `user_type` of 0 as false. */
  function ListUsers(st: Store, p: Principal, userType: Option<int>): (r: Result<seq<User>>)
    ensures p.Anonymous? ==> r == Err(InternalError)
    ensures p.SignedIn? && p.user.usertypeId == DefaultTier ==> r == Err(Unauthorized)
    ensures p.SignedIn? && p.user.usertypeId != SuperAdminTier && userType.None? ==> r == Err(Unauthorized)
    // Presenters and tier 3 may list any one tier but the admins.
    ensures p.SignedIn? && (p.user.usertypeId == PresenterTier || p.user.usertypeId == 3) && userType.Some? ==>
      (r.Ok? <==> userType.value != SuperAdminTier)
    // An admin may list everyone or any non-zero tier.
    ensures p.SignedIn? && p.user.usertypeId == SuperAdminTier ==>
      (r.Ok? <==> userType.None? || userType.value != 0)
    ensures r.Err? ==> r.failure in {InternalError, Unauthorized, Unprocessable}
    // What is listed: exactly the selected users, sorted by surname.
    ensures r.Ok? ==> multiset(r.value) == multiset(Selected(st.users, userType))
    ensures r.Ok? ==> forall i, j :: 0 <= i < j < |r.value| ==>
      !LexLess(LastName(r.value[j].name), LastName(r.value[i].name))
  {
    match p
    case Anonymous => Err(InternalError)
    case SignedIn(me) =>
      var tier := me.usertypeId;
      if tier == DefaultTier then Err(Unauthorized)
      else if tier != SuperAdminTier && userType.None? then Err(Unauthorized)
      else if tier < DefaultTier && tier != SuperAdminTier && userType != Some(SuperAdminTier) then
        Ok(SortUsers(Selected(st.users, userType)))
      else if tier == SuperAdminTier && userType.Some? && userType.value != 0 then
        Ok(SortUsers(Selected(st.users, userType)))
      else if tier == SuperAdminTier && userType.None? then
        Ok(SortUsers(Selected(st.users, userType)))
      else Err(Unprocessable)
  }

  /** A list request from anyone but an admin never reveals an admin. */
  lemma ListUsersHidesAdmins(st: Store, p: Principal, userType: Option<int>)
    requires p.SignedIn? && p.user.usertypeId != SuperAdminTier
    requires ListUsers(st, p, userType).Ok?
    ensures forall u :: u in ListUsers(st, p, userType).value ==> u.usertypeId != SuperAdminTier
  {
    var r := ListUsers(st, p, userType).value;
    forall u | u in r ensures u.usertypeId != SuperAdminTier {
      assert u in multiset(r);
      assert u in Selected(st.users, userType);
    }
  }

  // ---------------------------------------------------------------------
  // Single user

  /** Python's `a is b` on two ints computed separately: they are the same
      object only when equal and inside CPython's cache of small integers,
      -5 to 256. */
  predicate PyIntIs(a: int, b: int) {
    a == b && -5 <= a <= 256
  }

  /** `UserAPI.get` as written: self-access is tested with `is`. A missing
      user is dumped as an empty object, modelled as `None`. */
  function GetUserAsWritten(st: Store, p: Principal, userId: int): (r: Result<Option<User>>)
    ensures p.Anonymous? ==> r == Err(InternalError)
    ensures p.SignedIn? ==>
      (r.Ok? <==> p.user.usertypeId in {SuperAdminTier, PresenterTier} || PyIntIs(userId, p.user.id))
    ensures r.Ok? ==> r.value == FindUser(st.users, userId)
    ensures r.Err? ==> r.failure in {InternalError, Forbidden}
  {
    match p
    case Anonymous => Err(InternalError)
    case SignedIn(me) =>
      if me.usertypeId == SuperAdminTier || me.usertypeId == PresenterTier || PyIntIs(userId, me.id)
      then Ok(FindUser(st.users, userId))
      else Err(Forbidden)
  }

  /** `UserAPI.get` as its comment intends: SuperAdmins, presenters, or the
      user asking for their own record. */
  function GetUser(st: Store, p: Principal, userId: int): (r: Result<Option<User>>)
    ensures p.Anonymous? ==> r == Err(InternalError)
    ensures p.SignedIn? ==>
      (r.Ok? <==> p.user.usertypeId in {SuperAdminTier, PresenterTier} || userId == p.user.id)
    ensures r.Ok? ==> r.value == FindUser(st.users, userId)
    ensures r.Err? ==> r.failure in {InternalError, Forbidden}
  {
    match p
    case Anonymous => Err(InternalError)
    case SignedIn(me) =>
      if me.usertypeId == SuperAdminTier || me.usertypeId == PresenterTier || userId == me.id
      then Ok(FindUser(st.users, userId))
      else Err(Forbidden)
  }

  /** Every user may read their own record, whatever their id. */
  lemma GetUserOwnRecord(st: Store, u: User)
    ensures GetUser(st, SignedIn(u), u.id) == Ok(FindUser(st.users, u.id))
  {
  }

  /** The two agree on every id in the small-integer cache, and the one
      written with `is` never grants more. */
  lemma GetUserAsWrittenIsNarrower(st: Store, p: Principal, userId: int)
    ensures GetUserAsWritten(st, p, userId).Ok? ==> GetUser(st, p, userId) == GetUserAsWritten(st, p, userId)
    ensures -5 <= userId <= 256 ==> GetUserAsWritten(st, p, userId) == GetUser(st, p, userId)
  {
  }

  /** A default-tier user with id 300 is refused their own record by the code
      as written. */
  lemma GetUserAsWrittenRefusesSelf()
    ensures var u := User(300, "Dee Default", "dee@example.org", DefaultTier);
      var st := Store(map[], [u], map[], [], {}, []);
      && GetUserAsWritten(st, SignedIn(u), 300) == Err(Forbidden)
      && GetUser(st, SignedIn(u), 300) == Ok(Some(u))
  {
  }

  /** The fields a user update may carry; an absent field is left alone. */
  datatype UserEdit = UserEdit(name: Option<string>, email: Option<string>)

  function ApplyEdit(u: User, edit: UserEdit): (r: User)
    ensures r.id == u.id && r.usertypeId == u.usertypeId
    ensures r.name == (if edit.name.Some? then edit.name.value else u.name)
    ensures r.email == (if edit.email.Some? then edit.email.value else u.email)
  {
    u.(name := if edit.name.Some? then edit.name.value else u.name,
       email := if edit.email.Some? then edit.email.value else u.email)
  }

  /** The users with the row of id `u.id` replaced by `u`. */
  function ReplaceUser(users: seq<User>, u: User): (r: seq<User>)
    ensures |r| == |users|
    ensures forall i :: 0 <= i < |users| ==> r[i] == if users[i].id == u.id then u else users[i]
  {
    seq(|users|, i requires 0 <= i < |users| => if users[i].id == u.id then u else users[i])
  }

  /** Whether a user other than `id` already has `email`. */
  predicate EmailTaken(users: seq<User>, id: int, email: string) {
    exists i :: 0 <= i < |users| && users[i].id != id && users[i].email == email
  }

  /** `UserAPI.put`: an admin, or the user themself, edits a user's name and
      email. The body is validated only after the permission check (`None`
      is a validation failure). A clash with another user's email fails the
      commit, and the handler's `jsonify(e)` of the exception fails in turn:
      a 500 with nothing changed. */
  function PutUser(st: Store, p: Principal, userId: int, body: Option<UserEdit>): (out: Outcome<User>)
    ensures out.intents == []
    ensures out.result.Err? ==> out.store == st
    ensures p.Anonymous? ==> out.result == Err(InternalError)
    ensures p.SignedIn? ==>
      (out.result == Err(Forbidden) <==> p.user.usertypeId != SuperAdminTier && p.user.id != userId)
    ensures out.result == Err(Unprocessable) ==> body.None?
    ensures out.result == Err(NotFound) ==> !HasUser(st.users, userId)
    // A permitted caller's edit of an existing user, to an email no other
    // user holds, always succeeds.
    ensures (&& p.SignedIn? && (p.user.usertypeId == SuperAdminTier || p.user.id == userId)
             && body.Some? && HasUser(st.users, userId)
             && !EmailTaken(st.users, userId, ApplyEdit(FindUser(st.users, userId).value, body.value).email)) ==>
      out.result.Ok?
    ensures out.result.Ok? ==>
      && p.SignedIn? && body.Some?
      && (p.user.usertypeId == SuperAdminTier || p.user.id == userId)
      && FindUser(st.users, userId).Some?
      && out.result.value == ApplyEdit(FindUser(st.users, userId).value, body.value)
      && !EmailTaken(st.users, userId, out.result.value.email)
      && out.store == st.(users := ReplaceUser(st.users, out.result.value))
  {
    match p
    case Anonymous => Outcome(st, Err(InternalError), [])
    case SignedIn(me) =>
      if me.usertypeId != SuperAdminTier && me.id != userId then Outcome(st, Err(Forbidden), [])
      else if body.None? then Outcome(st, Err(Unprocessable), [])
      else
        match FindUser(st.users, userId)
        case None => Outcome(st, Err(NotFound), [])
        case Some(u) =>
          var u' := ApplyEdit(u, body.value);
          if EmailTaken(st.users, userId, u'.email) then Outcome(st, Err(InternalError), [])
          else Outcome(st.(users := ReplaceUser(st.users, u')), Ok(u'), [])
  }

  /** Replacing a row keeps the set of ids, and so their uniqueness. */
  lemma ReplaceUserKeepsIds(users: seq<User>, u: User)
    ensures forall id :: HasUser(ReplaceUser(users, u), id) <==> HasUser(users, id)
    ensures UniqueUserIds(users) ==> UniqueUserIds(ReplaceUser(users, u))
  {
    var r := ReplaceUser(users, u);
    forall id ensures HasUser(r, id) <==> HasUser(users, id) {
      if HasUser(users, id) {
        var x :| x in users && x.id == id;
        var i :| 0 <= i < |users| && users[i] == x;
        assert r[i] in r;
      }
      if HasUser(r, id) {
        var x :| x in r && x.id == id;
        var i :| 0 <= i < |r| && r[i] == x;
        assert users[i] in users;
      }
    }
  }

  /** Replacing a row, under unique ids, with one whose email no other user
      has keeps emails unique. */
  lemma ReplaceUserKeepsEmails(users: seq<User>, u: User)
    requires UniqueUserIds(users) && UniqueEmails(users)
    requires !EmailTaken(users, u.id, u.email)
    ensures UniqueEmails(ReplaceUser(users, u))
  {
    var r := ReplaceUser(users, u);
    forall i, j | 0 <= i < j < |r| ensures r[i].email != r[j].email {
      if users[i].id == u.id && users[j].id != u.id {
        assert r[j] == users[j];
      } else if users[j].id == u.id && users[i].id != u.id {
        assert r[i] == users[i];
      }
    }
  }

  /** Replacing a row with one of the same tier keeps every row's tier. */
  lemma ReplaceUserKeepsTiers(users: seq<User>, prev: User, u: User)
    requires UniqueUserIds(users)
    requires prev in users && prev.id == u.id && prev.usertypeId == u.usertypeId
    ensures forall i :: 0 <= i < |users| ==> ReplaceUser(users, u)[i].usertypeId == users[i].usertypeId
  {
    var k :| 0 <= k < |users| && users[k] == prev;
    forall i | 0 <= i < |users| && users[i].id == u.id ensures users[i] == prev {
      assert users[i].id == users[k].id;
    }
  }

  /** An update never changes a tier or an id, and keeps emails unique, so the
      database stays well formed. */
  lemma PutUserPreservesWellformed(st: Store, p: Principal, userId: int, body: Option<UserEdit>)
    requires Wellformed(st)
    ensures Wellformed(PutUser(st, p, userId, body).store)
    ensures forall i :: 0 <= i < |st.users| ==>
      PutUser(st, p, userId, body).store.users[i].usertypeId == st.users[i].usertypeId
  {
    var out := PutUser(st, p, userId, body);
    if out.result.Ok? {
      var u' := out.result.value;
      ReplaceUserKeepsIds(st.users, u');
      ReplaceUserKeepsEmails(st.users, u');
      ReplaceUserKeepsTiers(st.users, FindUser(st.users, userId).value, u');
    }
  }

  /** `UserAPI.delete`: only an admin, never on themself; the user's
      registrations and presenter edges go with them. */
  function DeleteUser(st: Store, p: Principal, userId: int): (out: Outcome<()>)
    ensures out.intents == []
    ensures out.result.Err? ==> out.store == st
    ensures p.Anonymous? ==> out.result == Err(InternalError)
    ensures p.SignedIn? && p.user.usertypeId != SuperAdminTier ==> out.result == Err(Unauthorized)
    ensures p.SignedIn? && p.user.usertypeId == SuperAdminTier && p.user.id == userId ==>
      out.result == Err(Forbidden)
    ensures p.SignedIn? && p.user.usertypeId == SuperAdminTier && p.user.id != userId ==>
      (out.result == Err(NotFound) <==> !HasUser(st.users, userId))
    ensures p.SignedIn? && p.user.usertypeId == SuperAdminTier && p.user.id != userId && HasUser(st.users, userId) ==>
      out.result.Ok?
    ensures out.result.Ok? ==>
      && !HasUser(out.store.users, userId)
      && (forall u :: u in out.store.users <==> u in st.users && u.id != userId)
      && (forall x :: x in out.store.registrations <==> x in st.registrations && x.userId != userId)
      && (forall e :: e in out.store.presenters <==> e in st.presenters && e.userId != userId)
      && out.store.courses == st.courses
  {
    match p
    case Anonymous => Outcome(st, Err(InternalError), [])
    case SignedIn(me) =>
      if me.usertypeId != SuperAdminTier then Outcome(st, Err(Unauthorized), [])
      else if me.id == userId then Outcome(st, Err(Forbidden), [])
      else if FindUser(st.users, userId).None? then Outcome(st, Err(NotFound), [])
      else Outcome(DeleteUserRow(st, userId), Ok(()), [])
  }

  /** Deleting a user keeps the database well formed, and the admin who did
      it is still there. */
  lemma DeleteUserKeepsCaller(st: Store, p: Principal, userId: int)
    requires Wellformed(st)
    requires p.SignedIn? && p.user in st.users
    ensures Wellformed(DeleteUser(st, p, userId).store)
    ensures p.user in DeleteUser(st, p, userId).store.users
  {
    DeleteUserRowPreservesWellformed(st, userId);
  }

  // ---------------------------------------------------------------------
  // Confirmed registrations

  /** One entry of the confirmed list: the registration, its course and the
      course's length in whole hours. */
  datatype Confirmed = Confirmed(reg: Registration, course: Course, hours: int)

  /** Each registration paired with its course and hours. A registration
      whose course is gone fails on `None.ends`. */
  function WithHours(courses: map<int, Course>, regs: seq<Registration>): (r: Result<seq<Confirmed>>)
    ensures r.Ok? <==> forall i :: 0 <= i < |regs| ==> regs[i].courseId in courses
    ensures r.Ok? ==> |r.value| == |regs| && forall i :: 0 <= i < |regs| ==>
      && r.value[i].reg == regs[i]
      && r.value[i].course == courses[regs[i].courseId]
      && 3600 * (r.value[i].hours - 1) < r.value[i].course.ends - r.value[i].course.starts
           <= 3600 * r.value[i].hours
    ensures r.Err? ==> r.failure == InternalError
    decreases |regs|
  {
    if |regs| == 0 then Ok([])
    else if regs[0].courseId !in courses then Err(InternalError)
    else
      var course := courses[regs[0].courseId];
      match WithHours(courses, regs[1..])
      case Err(f) => Err(f)
      case Ok(rest) => Ok([Confirmed(regs[0], course, EventHours(course))] + rest)
  }

  /** `UserConfirmedAPI.get`: the requested user's attended registrations
      with their hours, for the user themself, an admin or a presenter. The
      list is never `None`, so a missing user gives an empty list, not 404. */
  function ConfirmedFor(st: Store, p: Principal, userId: int): (r: Result<seq<Confirmed>>)
    ensures p.Anonymous? ==> r == Err(InternalError)
    ensures p.SignedIn? ==>
      (r == Err(Forbidden) <==>
         !(userId == p.user.id || p.user.usertypeId == SuperAdminTier || p.user.usertypeId == PresenterTier))
    ensures r.Ok? ==> forall c :: c in r.value ==> c.reg.userId == userId && c.reg.attended
    ensures r.Ok? ==> forall c :: c in r.value ==>
      c.reg in st.registrations && c.reg.courseId in st.courses && c.course == st.courses[c.reg.courseId]
    ensures r.Ok? ==> forall x :: x in st.registrations && x.userId == userId && x.attended ==>
      exists i :: 0 <= i < |r.value| && r.value[i].reg == x
    ensures r.Ok? ==> forall c :: c in r.value ==> c.hours == EventHours(c.course)
  {
    match p
    case Anonymous => Err(InternalError)
    case SignedIn(me) =>
      if userId == me.id || me.usertypeId == SuperAdminTier || me.usertypeId == PresenterTier then
        var attended := AttendedOf(st.registrations, userId);
        var r := WithHours(st.courses, attended);
        ConfirmedCovers(st.courses, attended, r);
        r
      else Err(Forbidden)
  }

  lemma ConfirmedCovers(courses: map<int, Course>, regs: seq<Registration>, r: Result<seq<Confirmed>>)
    requires r == WithHours(courses, regs)
    ensures r.Ok? ==> forall x :: x in regs ==> exists i :: 0 <= i < |r.value| && r.value[i].reg == x
    ensures r.Ok? ==> forall c :: c in r.value ==>
      && c.reg in regs && c.reg.courseId in courses && c.course == courses[c.reg.courseId]
      && c.hours == EventHours(c.course)
  {
    if r.Ok? {
      forall x | x in regs ensures exists i :: 0 <= i < |r.value| && r.value[i].reg == x {
        var i :| 0 <= i < |regs| && regs[i] == x;
        assert r.value[i].reg == x;
      }
      forall c | c in r.value
        ensures c.reg in regs && c.reg.courseId in courses && c.course == courses[c.reg.courseId]
        ensures c.hours == EventHours(c.course)
      {
        var i :| 0 <= i < |r.value| && r.value[i] == c;
        assert regs[i] in regs;
        CeilHoursIsTheCeiling(c.course.ends - c.course.starts, c.hours);
      }
    }
  }

  /** In a well-formed store every registration's course exists, so an
      allowed request always succeeds. */
  lemma ConfirmedSucceedsWhenAllowed(st: Store, me: User, userId: int)
    requires Wellformed(st)
    requires userId == me.id || me.usertypeId == SuperAdminTier || me.usertypeId == PresenterTier
    ensures ConfirmedFor(st, SignedIn(me), userId).Ok?
  {
    var attended := AttendedOf(st.registrations, userId);
    forall i | 0 <= i < |attended| ensures attended[i].courseId in st.courses {
      assert attended[i] in attended;
    }
  }
}
