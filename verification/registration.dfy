/** The attendee handlers of `resources/courses.py`: single register and
    cancel (`CourseAttendeeAPI.post/delete`), the attendance update
    (`CourseAttendeeAPI.put`), and the bulk attendance update and bulk add
    (`CourseAttendeesAPI.put/post`). Each handler is a function from the store
    and the request to the new store, the response or failure, and the
    webhook calls it made, recorded as sync intents instead of sent. */
module Registration {
  import opened Base
  import opened Models
  import opened Access

  /** The event card rendered after register and cancel. `available` is only
      recomputed by register; cancel renders the card without it. */
  datatype EventCard = EventCard(course: Course, available: Option<int>, state: DisplayState)

  // ---------------------------------------------------------------------
  // Register

  /** `CourseAttendeeAPI.post`: register the current user for a course.
      `accRequired` is the required form field `acc_required` (absent fails
      validation); `accDetails` is the optional `acc_details`, read only when
      an accommodation is requested and then unguarded.

      There is no duplicate check: a second registration for the same key
      passes the seat check and fails when the session flushes the composite
      primary key, after the webhook call when no accommodation was asked
      for (the first commit is then the one after the call) and before it
      otherwise. */
  function Register(st: Store, p: Principal, courseId: int,
                    accRequired: Option<bool>, accDetails: Option<string>): (out: Outcome<EventCard>)
    // Every failure leaves the store as it was.
    ensures out.result.Err? ==> out.store == st
    // Validation, a missing course or a missing user: no row, no note, no call.
    ensures accRequired.None? ==> out == Outcome(st, Err(Unprocessable), [])
    ensures accRequired.Some? && p.SignedIn? && courseId !in st.courses ==>
      out == Outcome(st, Err(NotFound), [])
    ensures accRequired.Some? && p.SignedIn? && courseId in st.courses && !HasUser(st.users, p.user.id) ==>
      out == Outcome(st, Err(NotFound), [])
    // The seat gate.
    ensures accRequired.Some? && p.SignedIn? && courseId in st.courses && HasUser(st.users, p.user.id) ==>
      (out.result == Err(Conflict) <==> AvailableSize(st, courseId) <= 0)
    ensures out.result == Err(Conflict) ==> out.intents == []
    // Success: exactly one new row for (course, caller), unattended, one
    // accommodation iff requested, one patch call.
    ensures out.result.Ok? ==>
      && p.SignedIn? && accRequired.Some? && courseId in st.courses
      && AvailableSize(st, courseId) > 0
      && !HasKey(st.registrations, courseId, p.user.id)
      && out.store.registrations == st.registrations + [Registration(courseId, p.user.id, false)]
      && (accRequired.value ==> accDetails.Some?)
      && out.store.accommodations ==
           st.accommodations + (if accRequired.value then [AccommodationNote(courseId, true, accDetails.value)] else [])
      && out.store == st.(registrations := out.store.registrations, accommodations := out.store.accommodations)
      && out.intents == [SyncIntent(Patch, st.courses[courseId].extCalendar, p.user.email)]
    // And the converse: a signed-in, existing user with a complete form and
    // no row yet gets a seat whenever one is left.
    ensures (&& accRequired.Some? && (accRequired.value ==> accDetails.Some?) && p.SignedIn?
             && courseId in st.courses && HasUser(st.users, p.user.id)
             && AvailableSize(st, courseId) > 0 && !HasKey(st.registrations, courseId, p.user.id)) ==>
      out.result.Ok?
    // Whatever happens, at most one call is made and it is this patch.
    ensures |out.intents| <= 1
    ensures out.intents != [] ==>
      p.SignedIn? && courseId in st.courses &&
      out.intents == [SyncIntent(Patch, st.courses[courseId].extCalendar, p.user.email)]
  {
    if accRequired.None? then Outcome(st, Err(Unprocessable), [])
    else if p.Anonymous? then Outcome(st, Err(InternalError), [])
    else if courseId !in st.courses then Outcome(st, Err(NotFound), [])
    else if FindUser(st.users, p.user.id).None? then Outcome(st, Err(NotFound), [])
    else if AvailableSize(st, courseId) <= 0 then Outcome(st, Err(Conflict), [])
    else
      var course := st.courses[courseId];
      var intent := SyncIntent(Patch, course.extCalendar, p.user.email);
      if accRequired.value && accDetails.None? then
        // `args['acc_details']` raises KeyError before anything commits.
        Outcome(st, Err(InternalError), [])
      else if FindRegistration(st.registrations, courseId, p.user.id).Some? then
        // The primary key rejects the second row at the next commit.
        Outcome(st, Err(InternalError), if accRequired.value then [] else [intent])
      else
        var notes :=
          if accRequired.value then st.accommodations + [AccommodationNote(courseId, true, accDetails.value)]
          else st.accommodations;
        var st' := st.(registrations := st.registrations + [Registration(courseId, p.user.id, false)],
                       accommodations := notes);
        Outcome(st', Ok(EventCard(course, Some(AvailableSize(st', courseId)),
                                  EnrolmentState(st', p.user.id, courseId))), [intent])
  }

  lemma {:induction false} FindAfterAppend(regs: seq<Registration>, r: Registration)
    requires !HasKey(regs, r.courseId, r.userId)
    ensures FindRegistration(regs + [r], r.courseId, r.userId) == Some(r)
    decreases |regs|
  {
    if |regs| > 0 {
      assert (regs + [r])[1..] == regs[1..] + [r];
      assert !HasKey(regs[1..], r.courseId, r.userId) by {
        forall i | 0 <= i < |regs[1..]|
          ensures !(regs[1..][i].courseId == r.courseId && regs[1..][i].userId == r.userId)
        {
          assert regs[1..][i] == regs[i + 1];
        }
      }
      assert !(regs[0].courseId == r.courseId && regs[0].userId == r.userId);
      FindAfterAppend(regs[1..], r);
    }
  }

  /** After a successful register the card shows one seat fewer and the
      state `registered`. */
  lemma RegisterCard(st: Store, p: Principal, courseId: int,
                     accRequired: Option<bool>, accDetails: Option<string>)
    requires Register(st, p, courseId, accRequired, accDetails).result.Ok?
    ensures var card := Register(st, p, courseId, accRequired, accDetails).result.value;
      card.available == Some(AvailableSize(st, courseId) - 1) && card.state == Registered
  {
    var out := Register(st, p, courseId, accRequired, accDetails);
    var r := Registration(courseId, p.user.id, false);
    AppendTakesOneSeat(st.registrations, r, courseId);
    FindAfterAppend(st.registrations, r);
  }

  /** Register keeps the database well formed: the new row's key is fresh and
      both of its foreign keys exist. */
  lemma RegisterPreservesWellformed(st: Store, p: Principal, courseId: int,
                                    accRequired: Option<bool>, accDetails: Option<string>)
    requires Wellformed(st)
    ensures Wellformed(Register(st, p, courseId, accRequired, accDetails).store)
  {
    var out := Register(st, p, courseId, accRequired, accDetails);
    if out.result.Ok? {
      var regs := out.store.registrations;
      var r := Registration(courseId, p.user.id, false);
      forall i, j | 0 <= i < j < |regs|
        ensures regs[i].courseId != regs[j].courseId || regs[i].userId != regs[j].userId
      {
        if j == |regs| - 1 {
          assert regs[i] == st.registrations[i];
        }
      }
    }
  }

  /** Register never takes a seat that is not there: a course within its cap
      stays within it, and every other course's count is untouched. */
  lemma RegisterRespectsCapacity(st: Store, p: Principal, courseId: int,
                                 accRequired: Option<bool>, accDetails: Option<string>)
    requires WithinCapacity(st)
    ensures WithinCapacity(Register(st, p, courseId, accRequired, accDetails).store)
  {
    var out := Register(st, p, courseId, accRequired, accDetails);
    if out.result.Ok? {
      forall c | c in out.store.courses
        ensures |CourseRegistrations(out.store.registrations, c)| <= out.store.courses[c].courseSize
      {
        AppendTakesOneSeat(st.registrations, Registration(courseId, p.user.id, false), c);
      }
    }
  }

  /** Registering again for a course one is registered for never adds a row:
      the second call fails on the seat check or on the primary key, and the
      store is unchanged. */
  lemma RegisterTwiceAddsNoRow(st: Store, p: Principal, courseId: int,
                               accRequired: Option<bool>, accDetails: Option<string>)
    requires p.SignedIn? && HasKey(st.registrations, courseId, p.user.id)
    ensures var out := Register(st, p, courseId, accRequired, accDetails);
      out.store == st && out.result.Err?
  {
  }

  // ---------------------------------------------------------------------
  // Cancel

  /** `CourseAttendeeAPI.delete`: cancel the current user's registration.
      The course is never checked: a missing course fails on
      `None.registrations`. */
  function Cancel(st: Store, p: Principal, courseId: int): (out: Outcome<EventCard>)
    ensures out.result.Err? ==> out.store == st && out.intents == []
    ensures courseId !in st.courses ==> out.result == Err(InternalError)
    ensures courseId in st.courses && p.SignedIn? ==>
      (out.result == Err(NotFound) <==> !HasKey(st.registrations, courseId, p.user.id))
    // A signed-in caller with a row for an existing course always cancels.
    ensures courseId in st.courses && p.SignedIn? && HasKey(st.registrations, courseId, p.user.id) ==>
      out.result.Ok?
    ensures out.result.Ok? ==>
      && p.SignedIn? && courseId in st.courses
      && HasKey(st.registrations, courseId, p.user.id)
      && out.store == st.(registrations := out.store.registrations)
      && !HasKey(out.store.registrations, courseId, p.user.id)
      && (forall x :: x in out.store.registrations <==>
            x in st.registrations && (x.courseId != courseId || x.userId != p.user.id))
      && out.intents == [SyncIntent(Pop, st.courses[courseId].extCalendar, p.user.email)]
      && out.result.value.state == Available
      && out.result.value.available == None
  {
    if courseId !in st.courses then Outcome(st, Err(InternalError), [])
    else if p.Anonymous? then Outcome(st, Err(InternalError), [])
    else if FindRegistration(st.registrations, courseId, p.user.id).None? then Outcome(st, Err(NotFound), [])
    else
      var course := st.courses[courseId];
      var st' := st.(registrations := WithoutKey(st.registrations, courseId, p.user.id));
      Outcome(st', Ok(EventCard(course, None, EnrolmentState(st', p.user.id, courseId))),
              [SyncIntent(Pop, course.extCalendar, p.user.email)])
  }

  /** Cancel frees exactly one seat of the course and no other course's. */
  lemma CancelFreesOneSeat(st: Store, p: Principal, courseId: int, c: int)
    requires UniqueRegistrationKeys(st.registrations)
    requires Cancel(st, p, courseId).result.Ok?
    requires c in st.courses
    ensures |CourseRegistrations(Cancel(st, p, courseId).store.registrations, c)| ==
            |CourseRegistrations(st.registrations, c)| - (if c == courseId then 1 else 0)
  {
    RemovalFreesOneSeat(st.registrations, courseId, p.user.id, c);
  }

  lemma CancelPreservesWellformed(st: Store, p: Principal, courseId: int)
    requires Wellformed(st)
    ensures Wellformed(Cancel(st, p, courseId).store)
  {
    if Cancel(st, p, courseId).result.Ok? {
      FilterPreservesUniqueKeys(st.registrations,
        (x: Registration) => !(x.courseId == courseId && x.userId == p.user.id));
    }
  }

  /** After a successful cancel the caller still exists, has no row for
      the course, and the course has a seat free. */
  lemma CancelLeavesSeat(st: Store, p: Principal, courseId: int)
    requires Wellformed(st) && WithinCapacity(st)
    requires Cancel(st, p, courseId).result.Ok?
    ensures var mid := Cancel(st, p, courseId).store;
      && p.SignedIn? && courseId in mid.courses
      && HasUser(mid.users, p.user.id)
      && !HasKey(mid.registrations, courseId, p.user.id)
      && AvailableSize(mid, courseId) > 0
  {
    CancelFreesOneSeat(st, p, courseId, courseId);
    var i :| 0 <= i < |st.registrations| && st.registrations[i].courseId == courseId
             && st.registrations[i].userId == p.user.id;
    assert st.registrations[i] in st.registrations;
  }

  /** Cancelling and registering again for the same course leaves exactly the
      one row, unattended, whatever its attendance was before. */
  lemma CancelThenRegister(st: Store, p: Principal, courseId: int)
    requires Wellformed(st) && WithinCapacity(st)
    requires Cancel(st, p, courseId).result.Ok?
    ensures var mid := Cancel(st, p, courseId).store;
      var out := Register(mid, p, courseId, Some(false), None);
      && out.result.Ok?
      && FindRegistration(out.store.registrations, courseId, p.user.id) ==
           Some(Registration(courseId, p.user.id, false))
      && UniqueRegistrationKeys(out.store.registrations)
  {
    var mid := Cancel(st, p, courseId).store;
    CancelLeavesSeat(st, p, courseId);
    CancelPreservesWellformed(st, p, courseId);
    RegisterPreservesWellformed(mid, p, courseId, Some(false), None);
    FindAfterAppend(mid.registrations, Registration(courseId, p.user.id, false));
  }

  // ---------------------------------------------------------------------
  // Attendance

  /** The rows of course `courseId` whose user is in `userIds` with their
      `attended` flag negated (`user.attended = not user.attended`); every
      other row as it was. */
  function FlipAttendance(regs: seq<Registration>, courseId: int, userIds: set<int>): (r: seq<Registration>)
    ensures |r| == |regs|
    ensures forall i :: 0 <= i < |regs| ==>
      && r[i].courseId == regs[i].courseId && r[i].userId == regs[i].userId
      && r[i].attended == (if regs[i].courseId == courseId && regs[i].userId in userIds
                           then !regs[i].attended else regs[i].attended)
  {
    seq(|regs|, i requires 0 <= i < |regs| =>
      if regs[i].courseId == courseId && regs[i].userId in userIds
      then regs[i].(attended := !regs[i].attended) else regs[i])
  }

  /** Flipping is its own inverse: the handler toggles, it does not set. */
  lemma FlipTwiceRestores(regs: seq<Registration>, courseId: int, userIds: set<int>)
    ensures FlipAttendance(FlipAttendance(regs, courseId, userIds), courseId, userIds) == regs
  {
    var twice := FlipAttendance(FlipAttendance(regs, courseId, userIds), courseId, userIds);
    assert forall i :: 0 <= i < |regs| ==> twice[i] == regs[i];
  }

  /** `CourseAttendeeAPI.put`: toggle one user's attendance for a course. */
  function UpdateAttendance(st: Store, courseId: int, userId: int): (out: Outcome<Registration>)
    ensures out.intents == []
    ensures out.result.Err? ==> out.store == st
    ensures courseId !in st.courses ==> out.result == Err(NotFound)
    ensures courseId in st.courses ==>
      (out.result == Err(NotFound) <==> !HasKey(st.registrations, courseId, userId))
    ensures courseId in st.courses && HasKey(st.registrations, courseId, userId) ==> out.result.Ok?
    ensures out.result.Ok? ==>
      && out.store == st.(registrations := FlipAttendance(st.registrations, courseId, {userId}))
      && out.result.value.courseId == courseId && out.result.value.userId == userId
      && (UniqueRegistrationKeys(st.registrations) ==>
            out.result.value.attended == !IsAttended(st, userId, courseId))
  {
    if courseId !in st.courses then Outcome(st, Err(NotFound), [])
    else
      match FindRegistration(st.registrations, courseId, userId)
      case None => Outcome(st, Err(NotFound), [])
      case Some(reg) =>
        Outcome(st.(registrations := FlipAttendance(st.registrations, courseId, {userId})),
                Ok(reg.(attended := !reg.attended)), [])
  }

  /** Toggling the same user twice restores the store: the operation is not
      idempotent. */
  lemma UpdateAttendanceTwiceRestores(st: Store, courseId: int, userId: int)
    requires UpdateAttendance(st, courseId, userId).result.Ok?
    ensures var once := UpdateAttendance(st, courseId, userId).store;
      UpdateAttendance(once, courseId, userId).store == st
  {
    var once := UpdateAttendance(st, courseId, userId).store;
    var reg := FindRegistration(st.registrations, courseId, userId).value;
    var i :| 0 <= i < |st.registrations| && st.registrations[i] == reg;
    assert once.registrations[i].courseId == courseId && once.registrations[i].userId == userId;
    assert HasKey(once.registrations, courseId, userId);
    FlipTwiceRestores(st.registrations, courseId, {userId});
  }

  /** `CourseAttendeesAPI.put`: toggle the attendance of every registered user
      of the course whose id is listed. The body's `if args:` cannot be false
      once `args["user_ids"]` was read, so the list is always the filter. */
  function BulkUpdateAttendance(st: Store, courseId: int, body: UserIdsArg): (out: Outcome<seq<Registration>>)
    ensures out.intents == []
    ensures out.result.Err? ==> out.store == st
    ensures courseId !in st.courses ==> out.result == Err(NotFound)
    ensures courseId in st.courses && body.NotAList? ==> out.result == Err(Unprocessable)
    // A missing body fails on `args["user_ids"]`: a 500.
    ensures courseId in st.courses && body.Missing? ==> out.result == Err(InternalError)
    ensures courseId in st.courses && body.Ids? ==> out.result.Ok?
    ensures out.result.Ok? ==>
      && body.Ids?
      && out.store == st.(registrations := FlipAttendance(st.registrations, courseId, set id | id in body.ids))
      && out.result.value == CourseRegistrations(out.store.registrations, courseId)
  {
    if courseId !in st.courses then Outcome(st, Err(NotFound), [])
    else
      match body
      case Missing => Outcome(st, Err(InternalError), [])
      case NotAList => Outcome(st, Err(Unprocessable), [])
      case Ids(ids) =>
        var regs := FlipAttendance(st.registrations, courseId, set id | id in ids);
        Outcome(st.(registrations := regs), Ok(CourseRegistrations(regs, courseId)), [])
  }

  /** Flipping attendance never changes a key, so the key set and the
      database's well-formedness are untouched. */
  lemma FlipPreservesWellformed(st: Store, courseId: int, userIds: set<int>)
    requires Wellformed(st)
    ensures Wellformed(st.(registrations := FlipAttendance(st.registrations, courseId, userIds)))
  {
    var regs := FlipAttendance(st.registrations, courseId, userIds);
    forall x | x in regs ensures x.courseId in st.courses && HasUser(st.users, x.userId) {
      var i :| 0 <= i < |regs| && regs[i] == x;
      assert st.registrations[i] in st.registrations;
    }
  }

  // ---------------------------------------------------------------------
  // Bulk add

  /** One pass of the loop in `CourseAttendeesAPI.post`: add an unattended row
      for `id` when the user exists and has no row for the course yet
      (`course.id not in current`), otherwise leave the rows alone. */
  function AddOne(regs: seq<Registration>, users: seq<User>, courseId: int, id: int): (next: seq<Registration>)
    ensures next == regs ||
      (next == regs + [Registration(courseId, id, false)] && HasUser(users, id) && !HasKey(regs, courseId, id))
    ensures HasUser(users, id) ==> HasKey(next, courseId, id)
  {
    if FindUser(users, id).Some? && FindRegistration(regs, courseId, id).None? then
      var next := regs + [Registration(courseId, id, false)];
      assert next[|regs|] == Registration(courseId, id, false);
      next
    else regs
  }

  /** The whole loop: the ids in order, each through `AddOne`. */
  function AddEach(regs: seq<Registration>, users: seq<User>, courseId: int, ids: seq<int>): (r: seq<Registration>)
    ensures |regs| <= |r| <= |regs| + |ids|
    ensures r[..|regs|] == regs
    ensures forall k :: |regs| <= k < |r| ==>
      r[k].courseId == courseId && !r[k].attended && HasUser(users, r[k].userId) && r[k].userId in ids
    decreases |ids|
  {
    if |ids| == 0 then regs
    else
      var next := AddOne(regs, users, courseId, ids[0]);
      var r := AddEach(next, users, courseId, ids[1..]);
      assert r[..|regs|] == r[..|next|][..|regs|];
      assert forall k :: |regs| <= k < |next| ==> r[k] == next[k] && next[k].userId == ids[0];
      assert forall k :: |next| <= k < |r| ==> r[k].userId in ids by {
        assert forall x :: x in ids[1..] ==> x in ids;
      }
      r
  }

  /** The loop adds seats to its own course only, at most one per listed id. */
  lemma AddEachSeats(regs: seq<Registration>, users: seq<User>, courseId: int, ids: seq<int>, c: int)
    ensures var r := AddEach(regs, users, courseId, ids);
      && (c != courseId ==> CourseRegistrations(r, c) == CourseRegistrations(regs, c))
      && |CourseRegistrations(r, courseId)| <= |CourseRegistrations(regs, courseId)| + |ids|
  {
    var r := AddEach(regs, users, courseId, ids);
    var added := r[|regs|..];
    assert r == regs + added;
    FilterAppend(regs, added, (x: Registration) => x.courseId == c);
    FilterAppend(regs, added, (x: Registration) => x.courseId == courseId);
    if c != courseId {
      forall k | 0 <= k < |added| ensures added[k].courseId != c {
        assert added[k] == r[|regs| + k];
      }
      FilterKeepsNone(added, (x: Registration) => x.courseId == c);
    }
  }

  /** Every listed id that names an existing user ends up registered. */
  lemma {:induction false} AddEachCovers(regs: seq<Registration>, users: seq<User>, courseId: int, ids: seq<int>)
    ensures forall id :: id in ids && HasUser(users, id) ==>
      HasKey(AddEach(regs, users, courseId, ids), courseId, id)
    decreases |ids|
  {
    if |ids| > 0 {
      var next := AddOne(regs, users, courseId, ids[0]);
      var r := AddEach(next, users, courseId, ids[1..]);
      AddEachCovers(next, users, courseId, ids[1..]);
      forall id | id in ids && HasUser(users, id) ensures HasKey(r, courseId, id) {
        if id == ids[0] {
          var i :| 0 <= i < |next| && next[i].courseId == courseId && next[i].userId == id;
          assert r[..|next|][i] == r[i];
        } else {
          assert id in ids[1..] by { assert ids == [ids[0]] + ids[1..]; }
        }
      }
    }
  }

  lemma AddOnePreservesUnique(regs: seq<Registration>, users: seq<User>, courseId: int, id: int)
    requires UniqueRegistrationKeys(regs)
    ensures UniqueRegistrationKeys(AddOne(regs, users, courseId, id))
  {
    var next := AddOne(regs, users, courseId, id);
    if next != regs {
      forall i, j | 0 <= i < j < |next|
        ensures next[i].courseId != next[j].courseId || next[i].userId != next[j].userId
      {
        if j == |regs| {
          assert next[i] == regs[i];
        }
      }
    }
  }

  /** The loop never adds a second row for a key, so the primary key holds. */
  lemma {:induction false} AddEachPreservesUnique(regs: seq<Registration>, users: seq<User>, courseId: int, ids: seq<int>)
    requires UniqueRegistrationKeys(regs)
    ensures UniqueRegistrationKeys(AddEach(regs, users, courseId, ids))
    decreases |ids|
  {
    if |ids| > 0 {
      AddOnePreservesUnique(regs, users, courseId, ids[0]);
      AddEachPreservesUnique(AddOne(regs, users, courseId, ids[0]), users, courseId, ids[1..]);
    }
  }

  /** `CourseAttendeesAPI.post`: add the listed users to a course. The body is
      checked before the course; the whole list is refused when it is longer
      than the seats left, even if some of its ids would be skipped. Bulk add
      makes no webhook call. */
  function BulkAdd(st: Store, courseId: int, body: UserIdsArg): (out: Outcome<seq<Registration>>)
    ensures out.intents == []
    ensures out.result.Err? ==> out.store == st
    ensures body.Missing? ==> out.result == Err(InternalError)
    ensures body.NotAList? ==> out.result == Err(Unprocessable)
    ensures body.Ids? && courseId !in st.courses ==> out.result == Err(NotFound)
    ensures body.Ids? && courseId in st.courses ==>
      (out.result == Err(Conflict) <==> |body.ids| > AvailableSize(st, courseId))
    // A list that fits in the seats left is always accepted, whatever ids
    // it holds: unknown ids and ids already registered are skipped.
    ensures body.Ids? && courseId in st.courses && |body.ids| <= AvailableSize(st, courseId) ==>
      out.result.Ok?
    ensures out.result.Ok? ==>
      && body.Ids? && courseId in st.courses
      && out.store == st.(registrations := out.store.registrations)
      && |CourseRegistrations(out.store.registrations, courseId)| <= st.courses[courseId].courseSize
      && (forall c :: c != courseId ==>
            CourseRegistrations(out.store.registrations, c) == CourseRegistrations(st.registrations, c))
      && |out.store.registrations| >= |st.registrations|
      && out.store.registrations[..|st.registrations|] == st.registrations
      && (forall k :: |st.registrations| <= k < |out.store.registrations| ==>
            && out.store.registrations[k].courseId == courseId
            && !out.store.registrations[k].attended
            && out.store.registrations[k].userId in body.ids
            && HasUser(st.users, out.store.registrations[k].userId))
      && (forall id :: id in body.ids && HasUser(st.users, id) ==>
            HasKey(out.store.registrations, courseId, id))
      && out.result.value == CourseRegistrations(out.store.registrations, courseId)
  {
    match body
    case Missing => Outcome(st, Err(InternalError), [])
    case NotAList => Outcome(st, Err(Unprocessable), [])
    case Ids(ids) =>
      if courseId !in st.courses then Outcome(st, Err(NotFound), [])
      else if |ids| > AvailableSize(st, courseId) then Outcome(st, Err(Conflict), [])
      else
        var regs := AddEach(st.registrations, st.users, courseId, ids);
        AddEachSeats(st.registrations, st.users, courseId, ids, courseId);
        assert forall c :: c != courseId ==>
          CourseRegistrations(regs, c) == CourseRegistrations(st.registrations, c) by {
          forall c | c != courseId
            ensures CourseRegistrations(regs, c) == CourseRegistrations(st.registrations, c)
          {
            AddEachSeats(st.registrations, st.users, courseId, ids, c);
          }
        }
        AddEachCovers(st.registrations, st.users, courseId, ids);
        Outcome(st.(registrations := regs), Ok(CourseRegistrations(regs, courseId)), [])
  }

  /** Bulk add keeps every course within its cap and the database well
      formed. */
  lemma BulkAddPreservesInvariants(st: Store, courseId: int, body: UserIdsArg)
    requires Wellformed(st) && WithinCapacity(st)
    ensures Wellformed(BulkAdd(st, courseId, body).store)
    ensures WithinCapacity(BulkAdd(st, courseId, body).store)
  {
    var out := BulkAdd(st, courseId, body);
    if out.result.Ok? {
      AddEachPreservesUnique(st.registrations, st.users, courseId, body.ids);
      BulkAddKeepsForeignKeys(st, courseId, body);
      BulkAddWithinCapacity(st, courseId, body);
    }
  }

  /** Every row after a bulk add names an existing course and user. */
  lemma BulkAddKeepsForeignKeys(st: Store, courseId: int, body: UserIdsArg)
    requires Wellformed(st)
    requires BulkAdd(st, courseId, body).result.Ok?
    ensures forall x :: x in BulkAdd(st, courseId, body).store.registrations ==>
      x.courseId in st.courses && HasUser(st.users, x.userId)
  {
    var regs := BulkAdd(st, courseId, body).store.registrations;
    forall x | x in regs ensures x.courseId in st.courses && HasUser(st.users, x.userId) {
      var k :| 0 <= k < |regs| && regs[k] == x;
      if k < |st.registrations| {
        assert regs[k] == st.registrations[k];
        assert st.registrations[k] in st.registrations;
      }
    }
  }

  /** A bulk add fills no course past its seats. */
  lemma BulkAddWithinCapacity(st: Store, courseId: int, body: UserIdsArg)
    requires WithinCapacity(st)
    ensures WithinCapacity(BulkAdd(st, courseId, body).store)
  {
    var out := BulkAdd(st, courseId, body);
    if out.result.Ok? {
      forall c | c in out.store.courses
        ensures |CourseRegistrations(out.store.registrations, c)| <= out.store.courses[c].courseSize
      {
        if c != courseId {
          assert CourseRegistrations(out.store.registrations, c) == CourseRegistrations(st.registrations, c);
        }
      }
    }
  }

  // ---------------------------------------------------------------------
  // A capacity-two scenario

  /** The store of the scenario below: one two-seat course, three users, and
      the given registrations. */
  function ScenarioStore(regs: seq<Registration>): Store {
    Store(map[1 := Course(1, "Course A", 2, 0, 3600, true, "ext-a")],
          [User(1, "Ann One", "one@example.org", 4),
           User(2, "Bo Two", "two@example.org", 4),
           User(3, "Cy Three", "three@example.org", 4)],
          map[], regs, {}, [])
  }

  function ScenarioUser(id: int): Principal
    requires 1 <= id <= 3
  {
    SignedIn(ScenarioStore([]).users[id - 1])
  }

  /** One successful registration in the scenario store. */
  lemma ScenarioRegisters(regs: seq<Registration>, id: int)
    requires 1 <= id <= 3
    requires !HasKey(regs, 1, id)
    requires AvailableSize(ScenarioStore(regs), 1) > 0
    ensures var out := Register(ScenarioStore(regs), ScenarioUser(id), 1, Some(false), None);
      && out.store == ScenarioStore(regs + [Registration(1, id, false)])
      && out.result.Ok?
      && out.result.value.available == Some(AvailableSize(ScenarioStore(regs), 1) - 1)
  {
    var st := ScenarioStore(regs);
    var p := ScenarioUser(id);
    assert p.SignedIn? && p.user.id == id;
    assert HasUser(st.users, id) by { assert p.user in st.users; }
    var out := Register(st, p, 1, Some(false), None);
    assert out.result.Ok?;
    assert out.store.accommodations == [];
    RegisterCard(st, p, 1, Some(false), None);
  }

  /** Two seats: two users register, the third is refused with 409, the
      first cancels, and the third then gets the freed seat. */
  lemma CapacityBoundaryScenario()
    ensures
      var r1 := Register(ScenarioStore([]), ScenarioUser(1), 1, Some(false), None);
      var r2 := Register(r1.store, ScenarioUser(2), 1, Some(false), None);
      var r3 := Register(r2.store, ScenarioUser(3), 1, Some(false), None);
      var c1 := Cancel(r3.store, ScenarioUser(1), 1);
      var r4 := Register(c1.store, ScenarioUser(3), 1, Some(false), None);
      && r1.result.Ok? && r1.result.value.available == Some(1)
      && r2.result.Ok? && r2.result.value.available == Some(0)
      && r3.result == Err(Conflict)
      && c1.result.Ok? && AvailableSize(c1.store, 1) == 1
      && r4.result.Ok? && r4.result.value.available == Some(0)
  {
    var a := Registration(1, 1, false);
    var b := Registration(1, 2, false);

    ScenarioRegisters([], 1);
    assert [] + [a] == [a];
    var r1 := Register(ScenarioStore([]), ScenarioUser(1), 1, Some(false), None);
    assert r1.store == ScenarioStore([a]);
    assert r1.result.value.available == Some(1);

    AppendTakesOneSeat([], a, 1);
    ScenarioRegisters([a], 2);
    var r2 := Register(r1.store, ScenarioUser(2), 1, Some(false), None);
    assert r2.store == ScenarioStore([a, b]);
    assert r2.result.value.available == Some(0);

    var full := ScenarioStore([a, b]);
    ScenarioFull();
    assert ScenarioUser(3).user in full.users;
    var r3 := Register(full, ScenarioUser(3), 1, Some(false), None);
    assert r3.result == Err(Conflict);
    assert r3.store == full;

    ScenarioCancels();
    var c1 := Cancel(full, ScenarioUser(1), 1);
    ScenarioRegisters(c1.store.registrations, 3);
  }

  /** The scenario store with both seats taken, by the first two users. */
  lemma ScenarioFull()
    ensures var full := ScenarioStore([Registration(1, 1, false), Registration(1, 2, false)]);
      && AvailableSize(full, 1) == 0
      && HasKey(full.registrations, 1, 1)
      && UniqueRegistrationKeys(full.registrations)
  {
    var a := Registration(1, 1, false);
    var b := Registration(1, 2, false);
    AppendTakesOneSeat([], a, 1);
    assert [] + [a] == [a];
    AppendTakesOneSeat([a], b, 1);
    assert [a, b][0] == a;
  }

  /** The first user's cancel there succeeds, changes only the rows, and
      leaves none for the third user. */
  lemma ScenarioCancelShape()
    ensures var c1 := Cancel(ScenarioStore([Registration(1, 1, false), Registration(1, 2, false)]), ScenarioUser(1), 1);
      && c1.result.Ok?
      && c1.store == ScenarioStore(c1.store.registrations)
      && !HasKey(c1.store.registrations, 1, 3)
  {
    var a := Registration(1, 1, false);
    var b := Registration(1, 2, false);
    ScenarioFull();
    var c1 := Cancel(ScenarioStore([a, b]), ScenarioUser(1), 1);
    forall x | x in c1.store.registrations ensures x.userId != 3 {
      assert x in [a, b];
    }
  }

  /** The first user's cancel in the full scenario store frees one seat and
      leaves no row for the third user. */
  lemma ScenarioCancels()
    ensures var c1 := Cancel(ScenarioStore([Registration(1, 1, false), Registration(1, 2, false)]), ScenarioUser(1), 1);
      && c1.result.Ok?
      && c1.store == ScenarioStore(c1.store.registrations)
      && AvailableSize(c1.store, 1) == 1
      && !HasKey(c1.store.registrations, 1, 3)
  {
    var full := ScenarioStore([Registration(1, 1, false), Registration(1, 2, false)]);
    ScenarioFull();
    ScenarioCancelShape();
    CancelFreesOneSeat(full, ScenarioUser(1), 1, 1);
  }
}
