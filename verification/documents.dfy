/** The certificate pages of `app/blueprints/documents_blueprint.py`: the
    documents page, the certificate of all attended events and the
    certificate of one event. Each event counts for its length rounded up to
    whole hours, and only attended registrations count. */
module Documents {
  import opened Base
  import opened Models
  import opened Access

  /** One line of a certificate: the course and its whole hours. */
  datatype CertEvent = CertEvent(course: Course, hours: int)

  /** What the pages render: the attended events, their total hours and, on
      the documents page, the number of all the user's registrations. */
  datatype Certificate = Certificate(events: seq<CertEvent>, total: int, totalRegistrations: int)

  function SumHours(events: seq<CertEvent>): int
    decreases |events|
  {
    if |events| == 0 then 0 else SumHours(events[..|events| - 1]) + events[|events| - 1].hours
  }

  function SumDurations(events: seq<CertEvent>): int
    decreases |events|
  {
    if |events| == 0 then 0
    else SumDurations(events[..|events| - 1]) + (events[|events| - 1].course.ends - events[|events| - 1].course.starts)
  }

  /** Each event rounded up to whole hours: the certificate total never falls
      short of the time attended, and exceeds it by less than one hour per
      event. */
  lemma {:induction false} TotalHoursBounds(events: seq<CertEvent>)
    requires forall i :: 0 <= i < |events| ==> events[i].hours == EventHours(events[i].course)
    ensures SumDurations(events) <= 3600 * SumHours(events)
    ensures |events| > 0 ==> 3600 * (SumHours(events) - |events|) < SumDurations(events)
    decreases |events|
  {
    if |events| > 0 {
      var init := events[..|events| - 1];
      assert forall i :: 0 <= i < |init| ==> init[i] == events[i];
      TotalHoursBounds(init);
    }
  }

  /** The loop of both list pages: for each attended registration, in order,
      look its course up, round its length up to hours and add them to the
      total. A registration whose course is gone fails on `None.ends`. */
  method CollectEvents(courses: map<int, Course>, regs: seq<Registration>)
    returns (r: Result<(seq<CertEvent>, int)>)
    ensures r.Ok? <==> forall i :: 0 <= i < |regs| ==> regs[i].courseId in courses
    ensures r.Err? ==> r.failure == InternalError
    ensures r.Ok? ==>
      && |r.value.0| == |regs|
      && (forall i :: 0 <= i < |regs| ==>
            r.value.0[i] == CertEvent(courses[regs[i].courseId], EventHours(courses[regs[i].courseId])))
      && r.value.1 == SumHours(r.value.0)
  {
    var events: seq<CertEvent> := [];
    var total := 0;
    var i := 0;
    while i < |regs|
      invariant 0 <= i <= |regs|
      invariant |events| == i
      invariant forall k :: 0 <= k < i ==> regs[k].courseId in courses
      invariant forall k :: 0 <= k < i ==>
        events[k] == CertEvent(courses[regs[k].courseId], EventHours(courses[regs[k].courseId]))
      invariant total == SumHours(events)
    {
      if regs[i].courseId !in courses {
        return Err(InternalError);
      }
      var course := courses[regs[i].courseId];
      var hours := EventHours(course);
      assert (events + [CertEvent(course, hours)])[..|events|] == events;
      events := events + [CertEvent(course, hours)];
      total := total + hours;
      i := i + 1;
    }
    return Ok((events, total));
  }

  /** The route guard shared by the three pages: only the user themself. An
      anonymous requester has no `id` and fails with a 500. */
  function SelfOnly(p: Principal, userId: int): (g: Gate)
    ensures g.Proceed? <==> p.SignedIn? && p.user.id == userId
    ensures p.Anonymous? ==> g == Deny(InternalError)
    ensures p.SignedIn? && p.user.id != userId ==> g == Deny(Forbidden)
  {
    match p
    case Anonymous => Deny(InternalError)
    case SignedIn(me) => if me.id != userId then Deny(Forbidden) else Proceed
  }

  /** `get_documents`: the attended events with their hours and total, and the
      count of all the user's registrations. */
  method GetDocuments(st: Store, p: Principal, userId: int) returns (r: Result<Certificate>)
    ensures SelfOnly(p, userId).Deny? ==> r == Err(SelfOnly(p, userId).failure)
    ensures r.Ok? ==>
      && p.SignedIn? && p.user.id == userId
      && r.value.totalRegistrations == |RegistrationsOf(st.registrations, userId)|
      && |r.value.events| == |AttendedOf(st.registrations, userId)|
      && |r.value.events| <= r.value.totalRegistrations
      && (forall i :: 0 <= i < |r.value.events| ==>
            && AttendedOf(st.registrations, userId)[i].courseId in st.courses
            && r.value.events[i].course == st.courses[AttendedOf(st.registrations, userId)[i].courseId]
            && r.value.events[i].hours == EventHours(r.value.events[i].course))
      && r.value.total == SumHours(r.value.events)
    ensures Wellformed(st) && SelfOnly(p, userId).Proceed? ==> r.Ok?
  {
    var gate := SelfOnly(p, userId);
    if gate.Deny? {
      return Err(gate.failure);
    }
    var attended := AttendedOf(st.registrations, userId);
    WellformedCoursesExist(st, attended);
    var collected := CollectEvents(st.courses, attended);
    if collected.Err? {
      return Err(collected.failure);
    }
    var (events, total) := collected.value;
    return Ok(Certificate(events, total, |RegistrationsOf(st.registrations, userId)|));
  }

  /** In a well-formed store every registration's course exists. */
  lemma WellformedCoursesExist(st: Store, regs: seq<Registration>)
    ensures (Wellformed(st) && forall x :: x in regs ==> x in st.registrations) ==>
      forall i :: 0 <= i < |regs| ==> regs[i].courseId in st.courses
  {
    if Wellformed(st) && forall x :: x in regs ==> x in st.registrations {
      forall i | 0 <= i < |regs| ensures regs[i].courseId in st.courses {
        assert regs[i] in regs;
      }
    }
  }

  /** `generate_pdf`: the certificate of every attended event. The
      registration count is not shown on it. */
  method GeneratePdf(st: Store, p: Principal, userId: int) returns (r: Result<(seq<CertEvent>, int)>)
    ensures SelfOnly(p, userId).Deny? ==> r == Err(SelfOnly(p, userId).failure)
    ensures r.Ok? ==>
      && p.SignedIn? && p.user.id == userId
      && |r.value.0| == |AttendedOf(st.registrations, userId)|
      && (forall i :: 0 <= i < |r.value.0| ==>
            && AttendedOf(st.registrations, userId)[i].courseId in st.courses
            && r.value.0[i].course == st.courses[AttendedOf(st.registrations, userId)[i].courseId]
            && r.value.0[i].hours == EventHours(r.value.0[i].course))
      && r.value.1 == SumHours(r.value.0)
    ensures Wellformed(st) && SelfOnly(p, userId).Proceed? ==> r.Ok?
  {
    var gate := SelfOnly(p, userId);
    if gate.Deny? {
      return Err(gate.failure);
    }
    var attended := AttendedOf(st.registrations, userId);
    WellformedCoursesExist(st, attended);
    r := CollectEvents(st.courses, attended);
  }

  /** `generate_single_pdf`: the certificate of one attended event. Asking for
      an event the user has not attended reads `.course` of `None`: a 500. */
  function GenerateSinglePdf(st: Store, p: Principal, userId: int, courseId: int): (r: Result<(seq<CertEvent>, int)>)
    ensures SelfOnly(p, userId).Deny? ==> r == Err(SelfOnly(p, userId).failure)
    ensures SelfOnly(p, userId).Proceed? && Registration(courseId, userId, true) !in st.registrations ==>
      r == Err(InternalError)
    ensures r.Ok? ==>
      && courseId in st.courses
      && Registration(courseId, userId, true) in st.registrations
      && r.value.0 == [CertEvent(st.courses[courseId], EventHours(st.courses[courseId]))]
      && r.value.1 == r.value.0[0].hours
      && r.value.1 == SumHours(r.value.0)
    // The user's own attended event, in a well-formed store, always prints.
    ensures SelfOnly(p, userId).Proceed? && Wellformed(st) && Registration(courseId, userId, true) in st.registrations ==>
      r.Ok?
  {
    match SelfOnly(p, userId)
    case Deny(f) => Err(f)
    case Proceed =>
      match FindRegistration(st.registrations, courseId, userId)
      case None => Err(InternalError)
      case Some(reg) =>
        if !reg.attended || courseId !in st.courses then Err(InternalError)
        else
          var event := CertEvent(st.courses[courseId], EventHours(st.courses[courseId]));
          assert [event][..0] == [];
          Ok(([event], event.hours))
  }
}
