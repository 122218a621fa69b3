/** The persistent store behind the application: courses (events), users,
    the `CourseUserAttended` registration rows, presenter edges and
    accommodation notes, with the derived quantities the handlers read
    (remaining seats, enrolment, display state), the generic `Manager.update`,
    the delete cascades and the two `__lt__` orderings. */
module Models {
  import opened Base
  import opened Ordering

  /** A `Course` row. Times are whole seconds since the epoch. */
  datatype Course = Course(
    id: int,
    title: string,
    courseSize: int,
    starts: int,
    ends: int,
    active: bool,
    extCalendar: string)

  /** A `User` row; `usertypeId` is the privilege tier. */
  datatype User = User(id: int, name: string, email: string, usertypeId: int)

  /** Tier ids as the application uses them. */
  const SuperAdminTier := 1
  const PresenterTier := 2
  const DefaultTier := 4

  /** A `CourseUserAttended` row, keyed by `(courseId, userId)`. */
  datatype Registration = Registration(courseId: int, userId: int, attended: bool)

  /** A `course_presenters` row. */
  datatype PresenterEdge = PresenterEdge(courseId: int, userId: int)

  /** A `UserAccommodation` row together with its `course_accommodations`
      link to the course it was raised for. */
  datatype AccommodationNote = AccommodationNote(courseId: int, required: bool, note: string)

  /** The database. Users and registrations are sequences in row order, which
      is the order an unordered query returns them in. `roles` is the
      `user_type` table: tier id to role name. */
  datatype Store = Store(
    courses: map<int, Course>,
    users: seq<User>,
    roles: map<int, string>,
    registrations: seq<Registration>,
    presenters: set<PresenterEdge>,
    accommodations: seq<AccommodationNote>)

  // ---------------------------------------------------------------------
  // Lookups

  /** `User.query.get(id)`. */
  function FindUser(users: seq<User>, id: int): (r: Option<User>)
    ensures r.Some? ==> r.value in users && r.value.id == id
    ensures r.None? <==> !HasUser(users, id)
    decreases |users|
  {
    if |users| == 0 then None
    else if users[0].id == id then Some(users[0])
    else FindUser(users[1..], id)
  }

  predicate HasUser(users: seq<User>, id: int) {
    exists u :: u in users && u.id == id
  }

  /** `User.query.filter_by(email=email).first()`. */
  function FindUserByEmail(users: seq<User>, email: string): (r: Option<User>)
    ensures r.Some? ==> r.value in users && r.value.email == email
    ensures r.None? <==> forall u :: u in users ==> u.email != email
    decreases |users|
  {
    if |users| == 0 then None
    else if users[0].email == email then Some(users[0])
    else FindUserByEmail(users[1..], email)
  }

  predicate HasKey(regs: seq<Registration>, courseId: int, userId: int) {
    exists i :: 0 <= i < |regs| && regs[i].courseId == courseId && regs[i].userId == userId
  }

  /** `course.registrations.filter_by(user_id=userId).first()`. */
  function FindRegistration(regs: seq<Registration>, courseId: int, userId: int): (r: Option<Registration>)
    ensures r.Some? ==> r.value in regs && r.value.courseId == courseId && r.value.userId == userId
    ensures r.None? <==> !HasKey(regs, courseId, userId)
    decreases |regs|
  {
    if |regs| == 0 then None
    else if regs[0].courseId == courseId && regs[0].userId == userId then Some(regs[0])
    else
      var r := FindRegistration(regs[1..], courseId, userId);
      assert HasKey(regs[1..], courseId, userId) ==> HasKey(regs, courseId, userId) by {
        if HasKey(regs[1..], courseId, userId) {
          var i :| 0 <= i < |regs[1..]| && regs[1..][i].courseId == courseId && regs[1..][i].userId == userId;
          assert regs[i + 1] == regs[1..][i];
        }
      }
      r
  }

  // ---------------------------------------------------------------------
  // Invariants the schema enforces

  /** The composite primary key of `course_user_attended`. */
  ghost predicate UniqueRegistrationKeys(regs: seq<Registration>) {
    forall i, j :: 0 <= i < j < |regs| ==>
      regs[i].courseId != regs[j].courseId || regs[i].userId != regs[j].userId
  }

  ghost predicate UniqueUserIds(users: seq<User>) {
    forall i, j :: 0 <= i < j < |users| ==> users[i].id != users[j].id
  }

  /** `User.email` is declared unique. */
  ghost predicate UniqueEmails(users: seq<User>) {
    forall i, j :: 0 <= i < j < |users| ==> users[i].email != users[j].email
  }

  /** `Course.ext_calendar` is declared unique. */
  ghost predicate UniqueExtCalendars(courses: map<int, Course>) {
    forall a, b :: a in courses && b in courses && a != b ==>
      courses[a].extCalendar != courses[b].extCalendar
  }

  /** Every state the database can hold: keys and unique columns are unique,
      and foreign keys point at existing rows. */
  ghost predicate Wellformed(st: Store) {
    && (forall k :: k in st.courses ==> st.courses[k].id == k)
    && UniqueUserIds(st.users)
    && UniqueEmails(st.users)
    && UniqueExtCalendars(st.courses)
    && UniqueRegistrationKeys(st.registrations)
    && (forall r :: r in st.registrations ==> r.courseId in st.courses && HasUser(st.users, r.userId))
    && (forall e :: e in st.presenters ==> e.courseId in st.courses && HasUser(st.users, e.userId))
  }

  /** Under the primary key, every registration with a given key is the one
      `FindRegistration` returns. */
  lemma FindIsTheOnlyMatch(regs: seq<Registration>, courseId: int, userId: int)
    ensures UniqueRegistrationKeys(regs) ==>
      forall i :: 0 <= i < |regs| && regs[i].courseId == courseId && regs[i].userId == userId ==>
        FindRegistration(regs, courseId, userId) == Some(regs[i])
  {
    if UniqueRegistrationKeys(regs) {
      forall i | 0 <= i < |regs| && regs[i].courseId == courseId && regs[i].userId == userId
        ensures FindRegistration(regs, courseId, userId) == Some(regs[i])
      {
        assert HasKey(regs, courseId, userId);
        var found := FindRegistration(regs, courseId, userId).value;
        var k :| 0 <= k < |regs| && regs[k] == found;
        assert regs[k].courseId == regs[i].courseId && regs[k].userId == regs[i].userId;
      }
    }
  }

  /** With unique ids, the user `FindUser` returns is the one at any index
      carrying that id. */
  lemma FindIsTheOnlyUser(users: seq<User>, id: int, i: int)
    requires UniqueUserIds(users)
    requires 0 <= i < |users| && users[i].id == id
    ensures FindUser(users, id) == Some(users[i])
  {
    var u := FindUser(users, id).value;
    var j :| 0 <= j < |users| && users[j] == u;
  }

  // ---------------------------------------------------------------------
  // Capacity

  /** `course.registrations.all()`: the course's registration rows in row
      order. */
  function CourseRegistrations(regs: seq<Registration>, courseId: int): (r: seq<Registration>)
    ensures forall x :: x in r <==> x in regs && x.courseId == courseId
  {
    Filter(regs, (x: Registration) => x.courseId == courseId)
  }

  /** The positions of the course's rows in the table. */
  function CourseRowIndices(regs: seq<Registration>, courseId: int): set<int> {
    set i | 0 <= i < |regs| && regs[i].courseId == courseId
  }

  /** The last row adds its own position to its course's, and nothing else. */
  lemma CourseRowIndicesSnoc(regs: seq<Registration>, courseId: int)
    requires |regs| > 0
    ensures CourseRowIndices(regs, courseId) ==
      CourseRowIndices(regs[..|regs| - 1], courseId)
      + (if regs[|regs| - 1].courseId == courseId then {|regs| - 1} else {})
  {
    var pre := regs[..|regs| - 1];
    forall i | 0 <= i < |pre| ensures pre[i] == regs[i] { }
  }

  /** The course's rows, listed, are as many as the positions holding one. */
  lemma {:induction false} CourseRegistrationsCount(regs: seq<Registration>, courseId: int)
    ensures |CourseRegistrations(regs, courseId)| == |CourseRowIndices(regs, courseId)|
    decreases |regs|
  {
    if |regs| == 0 {
      assert CourseRowIndices(regs, courseId) == {};
    } else {
      var pre, last := regs[..|regs| - 1], regs[|regs| - 1];
      assert regs == pre + [last];
      FilterAppend(pre, [last], (x: Registration) => x.courseId == courseId);
      FilterCons(last, [], (x: Registration) => x.courseId == courseId);
      assert [last] + [] == [last];
      CourseRegistrationsCount(pre, courseId);
      CourseRowIndicesSnoc(regs, courseId);
      var added := if last.courseId == courseId then {|regs| - 1} else {};
      assert |regs| - 1 !in CourseRowIndices(pre, courseId);
      assert |CourseRowIndices(regs, courseId)| == |CourseRowIndices(pre, courseId)| + |added|;
    }
  }

  /** `Course.available_size`: the course size minus the number of its
      registrations. Nothing clamps it, so it is negative when a course was
      shrunk below its registration count. */
  function AvailableSize(st: Store, courseId: int): (n: int)
    requires courseId in st.courses
    ensures n <= st.courses[courseId].courseSize
    ensures n == st.courses[courseId].courseSize - |CourseRowIndices(st.registrations, courseId)|
  {
    CourseRegistrationsCount(st.registrations, courseId);
    st.courses[courseId].courseSize - |CourseRegistrations(st.registrations, courseId)|
  }

  // ---------------------------------------------------------------------
  // A user's registrations

  /** The user's own registrations, attended or not. */
  function RegistrationsOf(regs: seq<Registration>, userId: int): (r: seq<Registration>)
    ensures forall x :: x in r <==> x in regs && x.userId == userId
  {
    Filter(regs, (x: Registration) => x.userId == userId)
  }

  /** The user's attended registrations, in row order. */
  function AttendedOf(regs: seq<Registration>, userId: int): (r: seq<Registration>)
    ensures forall x :: x in r <==> x in regs && x.userId == userId && x.attended
    ensures |r| <= |RegistrationsOf(regs, userId)|
  {
    AttendedIsSubset(regs, userId);
    Filter(regs, (x: Registration) => x.userId == userId && x.attended)
  }

  lemma {:induction false} AttendedIsSubset(regs: seq<Registration>, userId: int)
    ensures |Filter(regs, (x: Registration) => x.userId == userId && x.attended)|
         <= |Filter(regs, (x: Registration) => x.userId == userId)|
    decreases |regs|
  {
    if |regs| > 0 {
      AttendedIsSubset(regs[1..], userId);
    }
  }

  /** Every course holds no more registrations than it has seats. */
  ghost predicate WithinCapacity(st: Store) {
    forall c :: c in st.courses ==> |CourseRegistrations(st.registrations, c)| <= st.courses[c].courseSize
  }

  /** Appending a user row adds exactly its id to the ids present. */
  lemma HasUserAfterAppend(users: seq<User>, u: User, id: int)
    ensures HasUser(users + [u], id) <==> HasUser(users, id) || id == u.id
  {
    if HasUser(users, id) {
      var w :| w in users && w.id == id;
      assert w in users + [u];
    }
    assert u in users + [u];
  }

  /** Appending a user whose id and email are both unused keeps ids and
      emails unique. */
  lemma AppendUserKeepsUnique(users: seq<User>, u: User)
    requires UniqueUserIds(users) && UniqueEmails(users)
    requires !HasUser(users, u.id)
    requires forall w :: w in users ==> w.email != u.email
    ensures UniqueUserIds(users + [u]) && UniqueEmails(users + [u])
  {
    var r := users + [u];
    forall i | 0 <= i < |users| ensures r[i] == users[i] && users[i] in users {
    }
  }

  /** Appending one row for course `c` takes exactly one seat of `c` and
      none of any other course. */
  lemma AppendTakesOneSeat(regs: seq<Registration>, r: Registration, c: int)
    ensures |CourseRegistrations(regs + [r], c)| ==
            |CourseRegistrations(regs, c)| + (if r.courseId == c then 1 else 0)
  {
    FilterAppend(regs, [r], (x: Registration) => x.courseId == c);
  }

  /** The rows left after deleting key `(c, u)`. */
  function WithoutKey(regs: seq<Registration>, c: int, u: int): (r: seq<Registration>)
    ensures forall x :: x in r <==> x in regs && !(x.courseId == c && x.userId == u)
    ensures !HasKey(r, c, u)
  {
    Filter(regs, (x: Registration) => !(x.courseId == c && x.userId == u))
  }

  /** A key is present exactly when the first row has it or the rest do;
      under the primary key the first row's key is not among the rest. */
  lemma HasKeyCons(regs: seq<Registration>, c: int, u: int)
    requires |regs| > 0
    ensures HasKey(regs, c, u) <==>
      (regs[0].courseId == c && regs[0].userId == u) || HasKey(regs[1..], c, u)
    ensures UniqueRegistrationKeys(regs) ==> UniqueRegistrationKeys(regs[1..])
    ensures UniqueRegistrationKeys(regs) ==> !HasKey(regs[1..], regs[0].courseId, regs[0].userId)
  {
    var tail := regs[1..];
    if HasKey(tail, c, u) {
      var i :| 0 <= i < |tail| && tail[i].courseId == c && tail[i].userId == u;
      assert regs[i + 1] == tail[i];
    }
    if HasKey(regs, c, u) {
      var i :| 0 <= i < |regs| && regs[i].courseId == c && regs[i].userId == u;
      if i > 0 {
        assert tail[i - 1] == regs[i];
      }
    }
    if UniqueRegistrationKeys(regs) {
      forall i | 0 <= i < |tail| ensures tail[i] == regs[i + 1] {
      }
    }
  }

  /** Deleting the row with key `(c, u)` frees exactly one seat of `c` when
      the row exists, and leaves every other course's count alone. */
  lemma {:induction false} RemovalFreesOneSeat(regs: seq<Registration>, c: int, u: int, d: int)
    requires UniqueRegistrationKeys(regs)
    ensures |CourseRegistrations(WithoutKey(regs, c, u), d)| ==
            |CourseRegistrations(regs, d)| - (if d == c && HasKey(regs, c, u) then 1 else 0)
    decreases |regs|
  {
    if |regs| > 0 {
      var x, tail := regs[0], regs[1..];
      assert regs == [x] + tail;
      HasKeyCons(regs, c, u);
      RemovalFreesOneSeat(tail, c, u, d);
      FilterCons(x, tail, (x: Registration) => !(x.courseId == c && x.userId == u));
      FilterCons(x, tail, (x: Registration) => x.courseId == d);
      if !(x.courseId == c && x.userId == u) {
        assert WithoutKey(regs, c, u) == [x] + WithoutKey(tail, c, u);
        FilterCons(x, WithoutKey(tail, c, u), (x: Registration) => x.courseId == d);
        assert HasKey(regs, c, u) == HasKey(tail, c, u);
      } else {
        assert WithoutKey(regs, c, u) == WithoutKey(tail, c, u);
        assert !HasKey(tail, c, u);
      }
    }
  }

  // ---------------------------------------------------------------------
  // Enrolment and display state

  /** `User.is_enrolled(course)`: some registration row has this key. */
  function IsEnrolled(st: Store, userId: int, courseId: int): (b: bool)
    ensures b <==> HasKey(st.registrations, courseId, userId)
  {
    FindRegistration(st.registrations, courseId, userId).Some?
  }

  /** `User.is_attended(course)`: the `attended` flag of the first row for the
      key. The source dereferences `.first()` without a check, so it is only
      defined for an enrolled user. */
  function IsAttended(st: Store, userId: int, courseId: int): (b: bool)
    requires IsEnrolled(st, userId, courseId)
    ensures UniqueRegistrationKeys(st.registrations) ==>
      forall i :: (0 <= i < |st.registrations| && st.registrations[i].courseId == courseId
                   && st.registrations[i].userId == userId) ==> b == st.registrations[i].attended
  {
    FindIsTheOnlyMatch(st.registrations, courseId, userId);
    FindRegistration(st.registrations, courseId, userId).value.attended
  }

  /** The state an event card shows the current user. */
  datatype DisplayState = Attended | Registered | Available

  /** The three-way test the course handlers use to label a card. */
  function EnrolmentState(st: Store, userId: int, courseId: int): (s: DisplayState)
    ensures s == Available <==> !HasKey(st.registrations, courseId, userId)
    ensures UniqueRegistrationKeys(st.registrations) ==>
      forall i :: (0 <= i < |st.registrations| && st.registrations[i].courseId == courseId
                   && st.registrations[i].userId == userId) ==>
        s == (if st.registrations[i].attended then Attended else Registered)
  {
    if IsEnrolled(st, userId, courseId) && IsAttended(st, userId, courseId) then Attended
    else if IsEnrolled(st, userId, courseId) && !IsAttended(st, userId, courseId) then Registered
    else Available
  }

  // ---------------------------------------------------------------------
  // Manager.update

  /** `Manager.update(data)`: `setattr` for each item of the `data` dict, in
      order. A dict has distinct keys. */
  method UpdateAttributes<V>(attrs: map<string, V>, data: seq<(string, V)>) returns (r: map<string, V>)
    requires forall i, j :: 0 <= i < j < |data| ==> data[i].0 != data[j].0
    ensures forall i :: 0 <= i < |data| ==> data[i].0 in r && r[data[i].0] == data[i].1
    ensures forall k :: k in r <==> k in attrs || exists i :: 0 <= i < |data| && data[i].0 == k
    ensures forall k :: k in attrs && (forall i :: 0 <= i < |data| ==> data[i].0 != k) ==> r[k] == attrs[k]
  {
    r := attrs;
    var n := 0;
    while n < |data|
      invariant 0 <= n <= |data|
      invariant forall i :: 0 <= i < n ==> data[i].0 in r && r[data[i].0] == data[i].1
      invariant forall k :: k in r <==> k in attrs || exists i :: 0 <= i < n && data[i].0 == k
      invariant forall k :: k in attrs && (forall i :: 0 <= i < n ==> data[i].0 != k) ==> r[k] == attrs[k]
    {
      r := r[data[n].0 := data[n].1];
      n := n + 1;
    }
  }

  // ---------------------------------------------------------------------
  // Event length

  /** `ceil(seconds / 3600)`: a duration in whole hours, rounded up (towards
      zero for a negative duration). */
  function CeilHours(seconds: int): (h: int)
    ensures 3600 * (h - 1) < seconds <= 3600 * h
  {
    -((-seconds) / 3600)
  }

  /** The rounding is the only one possible: any `h` with
      `3600 * (h - 1) < seconds <= 3600 * h` is the ceiling. */
  lemma CeilHoursIsTheCeiling(seconds: int, h: int)
    requires 3600 * (h - 1) < seconds <= 3600 * h
    ensures h == CeilHours(seconds)
  {
  }

  /** An event's length in hours as the certificate reports it. */
  function EventHours(c: Course): (h: int)
    ensures 3600 * (h - 1) < c.ends - c.starts <= 3600 * h
  {
    CeilHours(c.ends - c.starts)
  }

  /** A sixty-one minute event counts as two hours; a whole hour as one. */
  lemma EventHoursExamples()
    ensures CeilHours(61 * 60) == 2
    ensures CeilHours(3600) == 1
    ensures CeilHours(0) == 0
  {
  }

  // ---------------------------------------------------------------------
  // Delete cascades

  /** Deleting a user row: `cascade="all, delete-orphan"` on
      `User.registrations` deletes the user's registrations, and the
      `course_presenters` rows go with it. */
  function DeleteUserRow(st: Store, userId: int): (r: Store)
    ensures forall u :: u in r.users <==> u in st.users && u.id != userId
    ensures forall x :: x in r.registrations <==> x in st.registrations && x.userId != userId
    ensures forall e :: e in r.presenters <==> e in st.presenters && e.userId != userId
    ensures r.courses == st.courses && r.accommodations == st.accommodations && r.roles == st.roles
  {
    st.(users := Filter(st.users, (u: User) => u.id != userId),
        registrations := Filter(st.registrations, (x: Registration) => x.userId != userId),
        presenters := (set e | e in st.presenters && e.userId != userId))
  }

  lemma DeleteUserRowPreservesWellformed(st: Store, userId: int)
    requires Wellformed(st)
    ensures Wellformed(DeleteUserRow(st, userId))
  {
    var r := DeleteUserRow(st, userId);
    FilterPreservesUniqueUsers(st.users, (u: User) => u.id != userId);
    FilterPreservesUniqueKeys(st.registrations, (x: Registration) => x.userId != userId);
    forall x | x in r.registrations ensures HasUser(r.users, x.userId) {
      var u :| u in st.users && u.id == x.userId;
      assert u in r.users;
    }
    forall e | e in r.presenters ensures HasUser(r.users, e.userId) {
      var u :| u in st.users && u.id == e.userId;
      assert u in r.users;
    }
  }

  /** Deleting a course row: its registrations go with it (delete-orphan),
      and so do its presenter and accommodation links. */
  function DeleteCourseRow(st: Store, courseId: int): (r: Store)
    ensures courseId !in r.courses
    ensures forall c :: c in r.courses <==> c in st.courses && c != courseId
    ensures forall x :: x in r.registrations <==> x in st.registrations && x.courseId != courseId
    ensures forall e :: e in r.presenters <==> e in st.presenters && e.courseId != courseId
    ensures r.users == st.users
  {
    st.(courses := map c | c in st.courses && c != courseId :: st.courses[c],
        registrations := Filter(st.registrations, (x: Registration) => x.courseId != courseId),
        presenters := (set e | e in st.presenters && e.courseId != courseId),
        accommodations := Filter(st.accommodations, (a: AccommodationNote) => a.courseId != courseId))
  }

  lemma DeleteCourseRowPreservesWellformed(st: Store, courseId: int)
    requires Wellformed(st)
    ensures Wellformed(DeleteCourseRow(st, courseId))
  {
    FilterPreservesUniqueKeys(st.registrations, (x: Registration) => x.courseId != courseId);
  }

  lemma {:induction false} FilterPreservesUniqueKeys(regs: seq<Registration>, keep: Registration -> bool)
    requires UniqueRegistrationKeys(regs)
    ensures UniqueRegistrationKeys(Filter(regs, keep))
    decreases |regs|
  {
    if |regs| > 0 {
      FilterPreservesUniqueKeys(regs[1..], keep);
      var rest := Filter(regs[1..], keep);
      forall j | 0 <= j < |rest|
        ensures regs[0].courseId != rest[j].courseId || regs[0].userId != rest[j].userId
      {
        assert rest[j] in regs[1..];
        var k :| 0 <= k < |regs[1..]| && regs[1..][k] == rest[j];
        assert regs[k + 1] == rest[j];
      }
    }
  }

  lemma {:induction false} FilterPreservesUniqueUsers(users: seq<User>, keep: User -> bool)
    requires UniqueUserIds(users) && UniqueEmails(users)
    ensures UniqueUserIds(Filter(users, keep)) && UniqueEmails(Filter(users, keep))
    decreases |users|
  {
    if |users| > 0 {
      FilterPreservesUniqueUsers(users[1..], keep);
      var rest := Filter(users[1..], keep);
      forall j | 0 <= j < |rest|
        ensures users[0].id != rest[j].id && users[0].email != rest[j].email
      {
        assert rest[j] in users[1..];
        var k :| 0 <= k < |users[1..]| && users[1..][k] == rest[j];
        assert users[k + 1] == rest[j];
      }
    }
  }

  // ---------------------------------------------------------------------
  // Orderings

  /** `Course.__lt__`: earlier start first. */
  predicate CourseBefore(a: Course, b: Course) {
    a.starts < b.starts
  }

  /** `User.__lt__`: compares the last space-separated word of the names. */
  predicate UserBefore(a: User, b: User) {
    LexLess(LastName(a.name), LastName(b.name))
  }

  /** `User.__eq__`: two users compare equal when the last words of their
      names match, whatever their ids. */
  predicate UserEq(a: User, b: User) {
    LastName(a.name) == LastName(b.name)
  }

  lemma CourseOrderIsStrictWeak()
    ensures StrictWeakOrder(CourseBefore)
  {
  }

  lemma UserOrderIsStrictWeak()
    ensures StrictWeakOrder(UserBefore)
  {
    forall a: User ensures !UserBefore(a, a) {
      LexLessIrreflexive(LastName(a.name));
    }
    forall a: User, b: User, c: User | UserBefore(a, b) && UserBefore(b, c)
      ensures UserBefore(a, c)
    {
      LexLessTransitive(LastName(a.name), LastName(b.name), LastName(c.name));
    }
    forall a: User, b: User, c: User | UserBefore(a, c)
      ensures UserBefore(a, b) || UserBefore(b, c)
    {
      LexLessTrichotomy(LastName(a.name), LastName(b.name));
      if UserBefore(b, a) {
        LexLessTransitive(LastName(b.name), LastName(a.name), LastName(c.name));
      }
    }
  }

  /** `sorted(courses)`: the same courses, by non-decreasing start time. */
  function SortCourses(cs: seq<Course>): (r: seq<Course>)
    ensures multiset(r) == multiset(cs)
    ensures forall i, j :: 0 <= i < j < |r| ==> r[i].starts <= r[j].starts
  {
    CourseOrderIsStrictWeak();
    var r := SortBy(cs, CourseBefore);
    assert forall i, j :: 0 <= i < j < |r| ==> !CourseBefore(r[j], r[i]);
    r
  }

  /** `sorted(users)`: the same users, by surname as Python compares strings. */
  function SortUsers(us: seq<User>): (r: seq<User>)
    ensures multiset(r) == multiset(us)
    ensures forall i, j :: 0 <= i < j < |r| ==> !LexLess(LastName(r[j].name), LastName(r[i].name))
  {
    UserOrderIsStrictWeak();
    var r := SortBy(us, UserBefore);
    assert forall i, j :: 0 <= i < j < |r| ==> !UserBefore(r[j], r[i]);
    r
  }
}
