/** The presenter handlers of `resources/courses.py`: bulk add
    (`CoursePresentersAPI.post`), single add and removal
    (`CoursePresenterAPI.post/delete`).

    Adding a presenter promotes the user to the Presenter tier unless they are
    already SuperAdmin or Presenter. The promotion goes through
    `Manager.update`, which commits on the spot, so in the bulk handler every
    promotion is also a commit point for the presenter edges appended so far.
    An edge that is already present, or appended twice, breaks the
    `course_presenters` primary key at the next commit; the request then ends
    in a 500 with everything committed before that point kept. */
module Presenters {
  import opened Base
  import opened Models
  import opened Access
  import opened Ordering

  /** The tier a user has after being made a presenter. */
  function PromotedTier(t: int): (r: int)
    ensures r == SuperAdminTier || r == PresenterTier
    ensures r == t || r == PresenterTier
  {
    if t != SuperAdminTier && t != PresenterTier then PresenterTier else t
  }

  /** Promotion never demotes: staff tiers are kept, every other tier becomes
      Presenter, and promoting twice is promoting once. */
  lemma PromotionRule(t: int)
    ensures (t == SuperAdminTier || t == PresenterTier) <==> PromotedTier(t) == t
    ensures PromotedTier(PromotedTier(t)) == PromotedTier(t)
  {
  }

  function PromoteUser(u: User): User {
    u.(usertypeId := PromotedTier(u.usertypeId))
  }

  /** The users after every user whose id is listed has been promoted. */
  function PromoteAll(users: seq<User>, ids: seq<int>): (r: seq<User>)
    ensures |r| == |users|
    ensures forall i :: 0 <= i < |users| ==>
      r[i] == if users[i].id in ids then PromoteUser(users[i]) else users[i]
  {
    seq(|users|, i requires 0 <= i < |users| =>
      if users[i].id in ids then PromoteUser(users[i]) else users[i])
  }

  /** Looking a user up after promotions finds the same user, promoted when
      listed. */
  lemma {:induction false} FindUserPromoteAll(users: seq<User>, ids: seq<int>, id: int)
    ensures FindUser(PromoteAll(users, ids), id) ==
      match FindUser(users, id)
      case None => None
      case Some(u) => Some(if u.id in ids then PromoteUser(u) else u)
    decreases |users|
  {
    if |users| > 0 {
      assert PromoteAll(users, ids)[1..] == PromoteAll(users[1..], ids);
      FindUserPromoteAll(users[1..], ids, id);
    }
  }

  lemma PromoteAllUniqueIds(users: seq<User>, ids: seq<int>)
    requires UniqueUserIds(users)
    ensures UniqueUserIds(PromoteAll(users, ids))
  {
  }

  /** The set of presenter ids of a course, `course.presenters`. */
  function PresenterIds(st: Store, courseId: int): (r: set<int>)
    ensures forall u :: u in r <==> PresenterEdge(courseId, u) in st.presenters
  {
    set e | e in st.presenters && e.courseId == courseId :: e.userId
  }

  function EdgeSet(es: seq<PresenterEdge>): set<PresenterEdge> {
    set e | e in es
  }

  /** Whether committing the pending edges `es` on top of `existing` breaks the
      primary key: some pending edge is already stored or was appended
      earlier in the same batch. */
  predicate CommitFails(existing: set<PresenterEdge>, es: seq<PresenterEdge>) {
    exists i :: 0 <= i < |es| && (es[i] in existing || es[i] in es[..i])
  }

  /** Committing in two batches fails exactly when committing at once does. */
  lemma CommitFailsSplit(existing: set<PresenterEdge>, a: seq<PresenterEdge>, b: seq<PresenterEdge>)
    ensures CommitFails(existing, a + b) <==>
      CommitFails(existing, a) || CommitFails(existing + EdgeSet(a), b)
  {
    var ab := a + b;
    if CommitFails(existing, a + b) {
      var i :| 0 <= i < |ab| && (ab[i] in existing || ab[i] in ab[..i]);
      if i < |a| {
        assert ab[..i] == a[..i];
      } else {
        var j := i - |a|;
        assert ab[i] == b[j];
        assert ab[..i] == a + b[..j];
      }
    }
    if CommitFails(existing, a) {
      var i :| 0 <= i < |a| && (a[i] in existing || a[i] in a[..i]);
      assert ab[i] == a[i] && ab[..i] == a[..i];
    }
    if CommitFails(existing + EdgeSet(a), b) {
      var j :| 0 <= j < |b| && (b[j] in existing + EdgeSet(a) || b[j] in b[..j]);
      assert ab[|a| + j] == b[j] && ab[..|a| + j] == a + b[..j];
    }
  }

  /** A failing batch cannot be rescued by appending more edges. */
  lemma CommitFailsGrows(existing: set<PresenterEdge>, a: seq<PresenterEdge>, b: seq<PresenterEdge>)
    requires a <= b && CommitFails(existing, a)
    ensures CommitFails(existing, b)
  {
    assert b == a + b[|a|..];
    CommitFailsSplit(existing, a, b[|a|..]);
  }

  /** The edges the bulk handler appends for `ids`, in order: one per id that
      names an existing user. */
  function ListedEdges(users: seq<User>, courseId: int, ids: seq<int>): (r: seq<PresenterEdge>)
    ensures |r| <= |ids|
    ensures forall e :: e in r <==> e.courseId == courseId && e.userId in ids && HasUser(users, e.userId)
    decreases |ids|
  {
    if |ids| == 0 then []
    else
      var last := ids[|ids| - 1];
      assert ids == ids[..|ids| - 1] + [last];
      ListedEdges(users, courseId, ids[..|ids| - 1])
        + (if FindUser(users, last).Some? then [PresenterEdge(courseId, last)] else [])
  }

  /** The webhook bodies the bulk handler posts for `ids`, in order: a patch
      of the course's event for each id that names an existing user. */
  function PatchIntents(course: Course, users: seq<User>, ids: seq<int>): (r: seq<SyncIntent>)
    ensures |r| <= |ids|
    ensures forall k :: 0 <= k < |r| ==> r[k].action == Patch && r[k].eventId == course.extCalendar
    decreases |ids|
  {
    if |ids| == 0 then []
    else
      var last := ids[|ids| - 1];
      PatchIntents(course, users, ids[..|ids| - 1])
        + (match FindUser(users, last) case Some(u) => [PatchIntent(course, u)] case None => [])
  }

  lemma {:induction false} ListsArePrefixes(course: Course, users: seq<User>, courseId: int, a: seq<int>, b: seq<int>)
    ensures ListedEdges(users, courseId, a) <= ListedEdges(users, courseId, a + b)
    ensures PatchIntents(course, users, a) <= PatchIntents(course, users, a + b)
    decreases |b|
  {
    if |b| > 0 {
      var ab := a + b;
      assert ab[..|ab| - 1] == a + b[..|b| - 1];
      ListsArePrefixes(course, users, courseId, a, b[..|b| - 1]);
    } else {
      assert a + b == a;
    }
  }

  /** The bulk handler between two iterations: the committed store, the edges
      appended since the last commit, and the webhook calls made. */
  datatype Pending = Pending(store: Store, edges: seq<PresenterEdge>, intents: seq<SyncIntent>)

  function CommitEdges(st: Store, es: seq<PresenterEdge>): Store {
    st.(presenters := st.presenters + EdgeSet(es))
  }

  /** The loop of `CoursePresentersAPI.post` over the remaining ids, then the
      final commit. */
  function PresentersLoop(p: Pending, courseId: int, course: Course, ids: seq<int>): (out: Outcome<set<int>>)
    ensures out.result.Err? ==> out.result == Err(InternalError)
    decreases |ids|
  {
    if |ids| == 0 then
      if CommitFails(p.store.presenters, p.edges) then Outcome(p.store, Err(InternalError), p.intents)
      else
        var st := CommitEdges(p.store, p.edges);
        Outcome(st, Ok(PresenterIds(st, courseId)), p.intents)
    else
      match FindUser(p.store.users, ids[0])
      case None => PresentersLoop(p, courseId, course, ids[1..])
      case Some(u) =>
        var edge := PresenterEdge(courseId, u.id);
        var intent := PatchIntent(course, u);
        if u.usertypeId != SuperAdminTier && u.usertypeId != PresenterTier then
          // `user.update(...)` commits the promotion with the pending edges.
          if CommitFails(p.store.presenters, p.edges) then Outcome(p.store, Err(InternalError), p.intents)
          else
            var st := CommitEdges(p.store, p.edges).(users := PromoteAll(p.store.users, [u.id]));
            PresentersLoop(Pending(st, [edge], p.intents + [intent]), courseId, course, ids[1..])
        else
          PresentersLoop(Pending(p.store, p.edges + [edge], p.intents + [intent]), courseId, course, ids[1..])
  }

  /** `CoursePresentersAPI.post`: make every listed user a presenter of the
      course. The body's `user_ids` is read before the course is looked up. */
  function AddPresenters(st: Store, courseId: int, body: UserIdsArg): (out: Outcome<set<int>>)
    ensures body.Missing? ==> out == Outcome(st, Err(InternalError), [])
    ensures body.NotAList? ==> out == Outcome(st, Err(Unprocessable), [])
    ensures body.Ids? && courseId !in st.courses ==> out == Outcome(st, Err(NotFound), [])
    ensures out.result.Ok? ==> out.result.value == PresenterIds(out.store, courseId)
  {
    match body
    case Missing => Outcome(st, Err(InternalError), [])
    case NotAList => Outcome(st, Err(Unprocessable), [])
    case Ids(ids) =>
      if courseId !in st.courses then Outcome(st, Err(NotFound), [])
      else
        var out := PresentersLoop(Pending(st, [], []), courseId, st.courses[courseId], ids);
        PresentersLoopOkValue(Pending(st, [], []), courseId, st.courses[courseId], ids);
        out
  }

  lemma {:induction false} PresentersLoopOkValue(p: Pending, courseId: int, course: Course, ids: seq<int>)
    ensures var out := PresentersLoop(p, courseId, course, ids);
      out.result.Ok? ==> out.result.value == PresenterIds(out.store, courseId)
    decreases |ids|
  {
    if |ids| > 0 {
      match FindUser(p.store.users, ids[0])
      case None => PresentersLoopOkValue(p, courseId, course, ids[1..]);
      case Some(u) =>
        var edge := PresenterEdge(courseId, u.id);
        var intent := PatchIntent(course, u);
        if u.usertypeId != SuperAdminTier && u.usertypeId != PresenterTier {
          if !CommitFails(p.store.presenters, p.edges) {
            var st := CommitEdges(p.store, p.edges).(users := PromoteAll(p.store.users, [u.id]));
            PresentersLoopOkValue(Pending(st, [edge], p.intents + [intent]), courseId, course, ids[1..]);
          }
        } else {
          PresentersLoopOkValue(Pending(p.store, p.edges + [edge], p.intents + [intent]), courseId, course, ids[1..]);
        }
    }
  }

  /** The loop's invariant, relative to the store `st` the request started
      from, after the ids `done`: the users listed so far are promoted, the
      edges listed so far are split into a committed part that did not fail
      and the pending part, and one patch was posted per existing user. */
  ghost predicate LoopInvariant(st: Store, courseId: int, course: Course, done: seq<int>,
                                committed: seq<PresenterEdge>, p: Pending) {
    && p.store == st.(users := PromoteAll(st.users, done), presenters := st.presenters + EdgeSet(committed))
    && ListedEdges(st.users, courseId, done) == committed + p.edges
    && !CommitFails(st.presenters, committed)
    && p.intents == PatchIntents(course, st.users, done)
  }

  /** What the loop computes, stated against the request's starting store
      `st` for the whole list `all`: it succeeds exactly when the listed
      edges can all be committed on top of the stored ones, it then adds
      exactly those edges and promotes exactly the listed users, and the
      webhook calls made are always a prefix of the one-per-existing-user
      list (all of it on success). A failure keeps the promotions of some
      prefix of the list no shorter than `from`. */
  ghost predicate LoopOutcome(st: Store, courseId: int, course: Course, all: seq<int>, from: nat,
                              out: Outcome<set<int>>) {
    var listed := ListedEdges(st.users, courseId, all);
    && (out.result.Ok? <==> !CommitFails(st.presenters, listed))
    && (out.result.Ok? ==>
          && out.store == st.(users := PromoteAll(st.users, all), presenters := st.presenters + EdgeSet(listed))
          && out.intents == PatchIntents(course, st.users, all))
    && out.intents <= PatchIntents(course, st.users, all)
    && (out.result.Err? ==>
          && out.store.presenters <= st.presenters + EdgeSet(listed)
          && exists k :: from <= k <= |all| && out.store == st.(users := PromoteAll(st.users, all[..k]),
                                                                  presenters := out.store.presenters))
  }

  /** The loop stopping at a commit that fails, after the ids `done`. */
  lemma LoopFailsHere(st: Store, courseId: int, course: Course, done: seq<int>,
                      committed: seq<PresenterEdge>, p: Pending, all: seq<int>)
    requires LoopInvariant(st, courseId, course, done, committed, p)
    requires done <= all
    requires CommitFails(p.store.presenters, p.edges)
    ensures LoopOutcome(st, courseId, course, all, |done|, Outcome(p.store, Err(InternalError), p.intents))
  {
    ListsArePrefixes(course, st.users, courseId, done, all[|done|..]);
    assert done + all[|done|..] == all;
    CommitFailsSplit(st.presenters, committed, p.edges);
    CommitFailsGrows(st.presenters, committed + p.edges, ListedEdges(st.users, courseId, all));
    assert all[..|done|] == done;
    forall e | e in EdgeSet(committed) ensures e in EdgeSet(ListedEdges(st.users, courseId, all)) {
      var i :| 0 <= i < |committed| && committed[i] == e;
      assert ListedEdges(st.users, courseId, done)[i] == e;
    }
  }

  /** The final commit after the whole list. */
  lemma LoopFinalCommit(st: Store, courseId: int, course: Course, all: seq<int>,
                        committed: seq<PresenterEdge>, p: Pending)
    requires LoopInvariant(st, courseId, course, all, committed, p)
    ensures LoopOutcome(st, courseId, course, all, |all|, PresentersLoop(p, courseId, course, []))
  {
    CommitFailsSplit(st.presenters, committed, p.edges);
    if CommitFails(p.store.presenters, p.edges) {
      LoopFailsHere(st, courseId, course, all, committed, p, all);
    } else {
      assert EdgeSet(committed + p.edges) == EdgeSet(committed) + EdgeSet(p.edges);
    }
  }

  /** One more id extends the listed edges and the patch calls by what that
      id contributes. */
  lemma ListsStep(course: Course, users: seq<User>, courseId: int, done: seq<int>, id: int)
    ensures ListedEdges(users, courseId, done + [id]) ==
      ListedEdges(users, courseId, done) + (if FindUser(users, id).Some? then [PresenterEdge(courseId, id)] else [])
    ensures PatchIntents(course, users, done + [id]) ==
      PatchIntents(course, users, done) + (match FindUser(users, id) case Some(u) => [PatchIntent(course, u)] case None => [])
  {
    var done' := done + [id];
    assert done'[..|done'| - 1] == done;
  }

  /** Promoting one more id on top of earlier promotions is promoting the
      extended list. */
  lemma PromoteAllAgain(users: seq<User>, done: seq<int>, id: int)
    ensures PromoteAll(PromoteAll(users, done), [id]) == PromoteAll(users, done + [id])
  {
    var twice, once := PromoteAll(PromoteAll(users, done), [id]), PromoteAll(users, done + [id]);
    forall i | 0 <= i < |users| ensures twice[i] == once[i] {
      assert users[i].id in done + [id] <==> users[i].id in done || users[i].id == id;
    }
  }

  /** An id naming no user changes nothing. */
  lemma LoopStepMissing(st: Store, courseId: int, course: Course, done: seq<int>,
                        committed: seq<PresenterEdge>, p: Pending, id: int)
    requires LoopInvariant(st, courseId, course, done, committed, p)
    requires FindUser(st.users, id).None?
    ensures LoopInvariant(st, courseId, course, done + [id], committed, p)
  {
    ListsStep(course, st.users, courseId, done, id);
    assert PromoteAll(st.users, done + [id]) == PromoteAll(st.users, done);
  }

  /** The lists after one more id naming an existing user `u`, found after
      the earlier promotions: one more edge, and one more patch call for
      `u`'s email. */
  lemma LoopListsStep(st: Store, courseId: int, course: Course, done: seq<int>,
                      committed: seq<PresenterEdge>, p: Pending, u: User)
    requires LoopInvariant(st, courseId, course, done, committed, p)
    requires FindUser(st.users, u.id).Some? && FindUser(p.store.users, u.id) == Some(u)
    ensures ListedEdges(st.users, courseId, done + [u.id]) == committed + p.edges + [PresenterEdge(courseId, u.id)]
    ensures PatchIntents(course, st.users, done + [u.id]) == p.intents + [PatchIntent(course, u)]
  {
    ListsStep(course, st.users, courseId, done, u.id);
    FindUserPromoteAll(st.users, done, u.id);
  }

  /** The store after committing the pending edges and promoting `u`. */
  lemma PromoteStepStore(st: Store, courseId: int, course: Course, done: seq<int>,
                         committed: seq<PresenterEdge>, p: Pending, id: int)
    requires LoopInvariant(st, courseId, course, done, committed, p)
    ensures CommitEdges(p.store, p.edges).(users := PromoteAll(p.store.users, [id])) ==
      st.(users := PromoteAll(st.users, done + [id]), presenters := st.presenters + EdgeSet(committed + p.edges))
  {
    PromoteAllAgain(st.users, done, id);
    assert EdgeSet(committed + p.edges) == EdgeSet(committed) + EdgeSet(p.edges);
  }

  /** An id naming a user who needs promotion: the pending edges commit with
      the promotion, and the new edge starts the next batch. */
  lemma LoopStepPromote(st: Store, courseId: int, course: Course, done: seq<int>,
                        committed: seq<PresenterEdge>, p: Pending, u: User)
    requires LoopInvariant(st, courseId, course, done, committed, p)
    requires FindUser(st.users, u.id).Some? && FindUser(p.store.users, u.id) == Some(u)
    requires !CommitFails(p.store.presenters, p.edges)
    ensures var st1 := CommitEdges(p.store, p.edges).(users := PromoteAll(p.store.users, [u.id]));
      LoopInvariant(st, courseId, course, done + [u.id], committed + p.edges,
                    Pending(st1, [PresenterEdge(courseId, u.id)], p.intents + [PatchIntent(course, u)]))
  {
    LoopListsStep(st, courseId, course, done, committed, p, u);
    PromoteStepStore(st, courseId, course, done, committed, p, u.id);
    CommitFailsSplit(st.presenters, committed, p.edges);
  }

  /** An id naming a user who is already staff: the edge joins the pending
      batch and nothing commits. */
  lemma LoopStepKeep(st: Store, courseId: int, course: Course, done: seq<int>,
                     committed: seq<PresenterEdge>, p: Pending, u: User)
    requires UniqueUserIds(st.users)
    requires LoopInvariant(st, courseId, course, done, committed, p)
    requires FindUser(st.users, u.id).Some? && FindUser(p.store.users, u.id) == Some(u)
    requires u.usertypeId == SuperAdminTier || u.usertypeId == PresenterTier
    ensures LoopInvariant(st, courseId, course, done + [u.id], committed,
                          Pending(p.store, p.edges + [PresenterEdge(courseId, u.id)],
                                  p.intents + [PatchIntent(course, u)]))
  {
    LoopListsStep(st, courseId, course, done, committed, p, u);
    PromoteAllStaffNoop(st.users, done, u);
    AppendAssoc(committed, p.edges, [PresenterEdge(courseId, u.id)]);
  }

  /** Listing a user again who is already staff after the earlier
      promotions changes no row. */
  lemma PromoteAllStaffNoop(users: seq<User>, done: seq<int>, u: User)
    requires UniqueUserIds(users)
    requires FindUser(PromoteAll(users, done), u.id) == Some(u)
    requires u.usertypeId == SuperAdminTier || u.usertypeId == PresenterTier
    ensures PromoteAll(users, done + [u.id]) == PromoteAll(users, done)
  {
    var before := PromoteAll(users, done);
    var after := PromoteAll(users, done + [u.id]);
    PromoteAllUniqueIds(users, done);
    forall i | 0 <= i < |users| ensures after[i] == before[i] {
      if users[i].id == u.id && u.id !in done {
        FindIsTheOnlyUser(before, u.id, i);
        assert before[i] == users[i] == u;
      }
    }
  }

  /** The loop, by induction over the remaining ids. */
  lemma {:induction false} PresentersLoopSpec(st: Store, courseId: int, course: Course, done: seq<int>,
                                              committed: seq<PresenterEdge>, p: Pending, ids: seq<int>)
    requires UniqueUserIds(st.users)
    requires LoopInvariant(st, courseId, course, done, committed, p)
    ensures LoopOutcome(st, courseId, course, done + ids, |done|, PresentersLoop(p, courseId, course, ids))
    decreases |ids|
  {
    var all := done + ids;
    if |ids| == 0 {
      assert all == done;
      LoopFinalCommit(st, courseId, course, done, committed, p);
    } else {
      var id := ids[0];
      var done' := done + [id];
      MoveHead(done, ids);
      FindUserPromoteAll(st.users, done, id);
      if FindUser(st.users, id).None? {
        LoopStepMissing(st, courseId, course, done, committed, p, id);
        PresentersLoopSpec(st, courseId, course, done', committed, p, ids[1..]);
      } else {
        var u := FindUser(p.store.users, id).value;
        if u.usertypeId != SuperAdminTier && u.usertypeId != PresenterTier {
          if CommitFails(p.store.presenters, p.edges) {
            LoopFailsHere(st, courseId, course, done, committed, p, all);
          } else {
            LoopStepPromote(st, courseId, course, done, committed, p, u);
            var st1 := CommitEdges(p.store, p.edges).(users := PromoteAll(p.store.users, [u.id]));
            PresentersLoopSpec(st, courseId, course, done', committed + p.edges,
              Pending(st1, [PresenterEdge(courseId, u.id)], p.intents + [PatchIntent(course, u)]), ids[1..]);
          }
        } else {
          LoopStepKeep(st, courseId, course, done, committed, p, u);
          PresentersLoopSpec(st, courseId, course, done', committed,
            Pending(p.store, p.edges + [PresenterEdge(courseId, u.id)], p.intents + [PatchIntent(course, u)]),
            ids[1..]);
        }
      }
    }
  }

  /** The bulk handler, end to end, for a list body and an existing course. */
  lemma AddPresentersSpec(st: Store, courseId: int, ids: seq<int>)
    requires UniqueUserIds(st.users)
    requires courseId in st.courses
    ensures var out := AddPresenters(st, courseId, Ids(ids));
      var listed := ListedEdges(st.users, courseId, ids);
      var calls := PatchIntents(st.courses[courseId], st.users, ids);
      && (out.result.Ok? <==> !CommitFails(st.presenters, listed))
      && (out.result.Ok? ==>
            && out.store == st.(users := PromoteAll(st.users, ids), presenters := st.presenters + EdgeSet(listed))
            && out.intents == calls)
      && (out.result.Err? ==> out.result == Err(InternalError) && out.intents <= calls)
  {
    assert [] + ids == ids;
    assert st.(users := PromoteAll(st.users, []), presenters := st.presenters + EdgeSet([])) == st;
    PresentersLoopSpec(st, courseId, st.courses[courseId], [], [], Pending(st, [], []), ids);
    var out := AddPresenters(st, courseId, Ids(ids));
    assert out == PresentersLoop(Pending(st, [], []), courseId, st.courses[courseId], ids);
  }

  /** Listing a user who already presents the course fails the request. */
  lemma AddPresentersExistingEdgeFails(st: Store, courseId: int, ids: seq<int>, id: int)
    requires UniqueUserIds(st.users)
    requires courseId in st.courses
    requires id in ids && HasUser(st.users, id) && PresenterEdge(courseId, id) in st.presenters
    ensures AddPresenters(st, courseId, Ids(ids)).result == Err(InternalError)
  {
    AddPresentersSpec(st, courseId, ids);
    var listed := ListedEdges(st.users, courseId, ids);
    assert PresenterEdge(courseId, id) in listed;
    var i :| 0 <= i < |listed| && listed[i] == PresenterEdge(courseId, id);
    assert CommitFails(st.presenters, listed);
  }

  /** A list of distinct ids, none of them already presenting the course,
      always succeeds. */
  lemma AddPresentersFreshSucceeds(st: Store, courseId: int, ids: seq<int>)
    requires UniqueUserIds(st.users)
    requires courseId in st.courses
    requires Distinct(ids)
    requires forall id :: id in ids ==> PresenterEdge(courseId, id) !in st.presenters
    ensures AddPresenters(st, courseId, Ids(ids)).result.Ok?
  {
    AddPresentersSpec(st, courseId, ids);
    ListedEdgesDistinct(st.users, courseId, ids);
    var listed := ListedEdges(st.users, courseId, ids);
    forall i | 0 <= i < |listed| ensures listed[i] !in st.presenters && listed[i] !in listed[..i] {
      assert listed[i] in listed;
      assert forall k :: 0 <= k < i ==> listed[..i][k] == listed[k];
    }
  }

  ghost predicate Distinct<T>(xs: seq<T>) {
    forall i, j :: 0 <= i < j < |xs| ==> xs[i] != xs[j]
  }

  /** Distinct ids give distinct edges. */
  lemma {:induction false} ListedEdgesDistinct(users: seq<User>, courseId: int, ids: seq<int>)
    requires Distinct(ids)
    ensures Distinct(ListedEdges(users, courseId, ids))
    decreases |ids|
  {
    if |ids| > 0 {
      var init := ids[..|ids| - 1];
      var last := ids[|ids| - 1];
      ListedEdgesDistinct(users, courseId, init);
      var es := ListedEdges(users, courseId, ids);
      var head := ListedEdges(users, courseId, init);
      assert ids == init + [last];
      assert es == head + (if FindUser(users, last).Some? then [PresenterEdge(courseId, last)] else []);
      assert last !in init;
      assert PresenterEdge(courseId, last) !in head;
      forall i, j | 0 <= i < j < |es| ensures es[i] != es[j] {
        if j < |head| {
          assert es[i] == head[i] && es[j] == head[j];
        } else {
          assert es[i] == head[i] && es[i] in head;
        }
      }
    }
  }

  // ---------------------------------------------------------------------
  // Single presenter

  /** `CoursePresenterAPI.post`: make one user a presenter of the course. The
      promotion commits before the edge is appended, so re-adding an existing
      presenter keeps the promotion and then fails on the primary key. */
  function AddPresenter(st: Store, courseId: int, userId: int): (out: Outcome<set<int>>)
    ensures out.intents == []
    ensures courseId !in st.courses || !HasUser(st.users, userId) ==> out == Outcome(st, Err(NotFound), [])
    ensures courseId in st.courses && HasUser(st.users, userId) ==>
      && (out.result.Ok? <==> PresenterEdge(courseId, userId) !in st.presenters)
      && (out.result.Err? ==> out.result == Err(InternalError))
      && out.store.presenters ==
           (if out.result.Ok? then st.presenters + {PresenterEdge(courseId, userId)} else st.presenters)
      && (UniqueUserIds(st.users) ==> out.store == st.(users := PromoteAll(st.users, [userId]),
                                                        presenters := out.store.presenters))
    ensures out.result.Ok? ==> out.result.value == PresenterIds(out.store, courseId)
  {
    if courseId !in st.courses then Outcome(st, Err(NotFound), [])
    else
      match FindUser(st.users, userId)
      case None => Outcome(st, Err(NotFound), [])
      case Some(u) =>
        var promoted :=
          if u.usertypeId != PresenterTier && u.usertypeId != SuperAdminTier
          then st.(users := PromoteAll(st.users, [u.id])) else st;
        NoPromotionNeeded(st.users, u);
        var edge := PresenterEdge(courseId, u.id);
        if edge in st.presenters then Outcome(promoted, Err(InternalError), [])
        else
          var st' := promoted.(presenters := promoted.presenters + {edge});
          Outcome(st', Ok(PresenterIds(st', courseId)), [])
  }

  /** Promoting a user who is already staff changes no row. */
  lemma NoPromotionNeeded(users: seq<User>, u: User)
    ensures (&& FindUser(users, u.id) == Some(u)
             && (u.usertypeId == PresenterTier || u.usertypeId == SuperAdminTier)
             && UniqueUserIds(users)) ==>
      PromoteAll(users, [u.id]) == users
  {
    if FindUser(users, u.id) == Some(u) && UniqueUserIds(users) {
      forall i | 0 <= i < |users| && users[i].id == u.id ensures users[i] == u {
        FindIsTheOnlyUser(users, u.id, i);
      }
    }
  }

  /** `CoursePresenterAPI.delete`: remove the edge only. A user who is not a
      presenter of the course makes `list.remove` raise. */
  function RemovePresenter(st: Store, courseId: int, userId: int): (out: Outcome<()>)
    ensures out.intents == []
    // The user's tier, and every user, is left alone whatever happens.
    ensures out.store == st.(presenters := out.store.presenters)
    ensures courseId !in st.courses || !HasUser(st.users, userId) ==> out.result == Err(NotFound)
    ensures courseId in st.courses && HasUser(st.users, userId) ==>
      (out.result.Ok? <==> PresenterEdge(courseId, userId) in st.presenters)
    ensures out.result.Ok? ==> out.store.presenters == st.presenters - {PresenterEdge(courseId, userId)}
    ensures out.result.Err? ==> out.store == st
  {
    if courseId !in st.courses || FindUser(st.users, userId).None? then Outcome(st, Err(NotFound), [])
    else if PresenterEdge(courseId, userId) !in st.presenters then Outcome(st, Err(InternalError), [])
    else Outcome(st.(presenters := st.presenters - {PresenterEdge(courseId, userId)}), Ok(()), [])
  }

  /** `loaded` is `course.presenters` as the ORM loads it: every presenter
      of the course, each a stored user, in the order the query returns
      them. */
  ghost predicate LoadedPresenters(st: Store, courseId: int, loaded: seq<User>) {
    && (forall v :: v in loaded ==> v in st.users && PresenterEdge(courseId, v.id) in st.presenters)
    && (forall v :: v in st.users && PresenterEdge(courseId, v.id) in st.presenters ==> v in loaded)
  }

  /** The element `list.remove(u)` takes out: the first one that `==` calls
      equal to `u`. */
  function FirstEqual(loaded: seq<User>, u: User): (r: Option<nat>)
    ensures r.None? <==> forall k :: 0 <= k < |loaded| ==> !UserEq(loaded[k], u)
    ensures r.Some? ==>
      && r.value < |loaded| && UserEq(loaded[r.value], u)
      && forall j :: 0 <= j < r.value ==> !UserEq(loaded[j], u)
    decreases |loaded|
  {
    if |loaded| == 0 then None
    else if UserEq(loaded[0], u) then Some(0)
    else
      match FirstEqual(loaded[1..], u)
      case None => None
      case Some(k) => Some(k + 1)
  }

  /** `CoursePresenterAPI.delete` as written. `course.presenters.remove(user)`
      goes through `User.__eq__`, which compares surnames only, so it takes
      out the first loaded presenter sharing the user's surname, who may be
      someone else; the collection event for the removal still names
      `user`, so the backref drops the user's own edge as well. A user who
      presents nothing is only refused when no presenter of the course
      shares their surname. */
  function RemovePresenterAsWritten(st: Store, courseId: int, userId: int, loaded: seq<User>): (out: Outcome<()>)
    requires LoadedPresenters(st, courseId, loaded)
    ensures out.intents == []
    ensures out.store == st.(presenters := out.store.presenters)
    ensures out.result.Err? ==> out.store == st
    ensures courseId !in st.courses || !HasUser(st.users, userId) ==> out.result == Err(NotFound)
    ensures courseId in st.courses && HasUser(st.users, userId) ==>
      var u := FindUser(st.users, userId).value;
      && (out.result.Err? <==> forall k :: 0 <= k < |loaded| ==> !UserEq(loaded[k], u))
      && (out.result.Err? ==> out.result == Err(InternalError))
      && (out.result.Ok? ==>
            exists k ::
              && 0 <= k < |loaded|
              && UserEq(loaded[k], u) && (forall j :: 0 <= j < k ==> !UserEq(loaded[j], u))
              && out.store.presenters ==
                   st.presenters - {PresenterEdge(courseId, loaded[k].id), PresenterEdge(courseId, userId)})
  {
    if courseId !in st.courses || FindUser(st.users, userId).None? then Outcome(st, Err(NotFound), [])
    else
      var u := FindUser(st.users, userId).value;
      match FirstEqual(loaded, u)
      case None => Outcome(st, Err(InternalError), [])
      case Some(k) =>
        Outcome(st.(presenters := st.presenters - {PresenterEdge(courseId, loaded[k].id), PresenterEdge(courseId, userId)}),
                Ok(()), [])
  }

  /** When no other presenter of the course shares the user's surname, the
      code as written removes exactly the user's own edge, as intended. */
  lemma RemovePresenterAsWrittenAgrees(st: Store, courseId: int, userId: int, loaded: seq<User>)
    requires LoadedPresenters(st, courseId, loaded)
    requires UniqueUserIds(st.users)
    requires HasUser(st.users, userId) && PresenterEdge(courseId, userId) in st.presenters
    requires forall k :: 0 <= k < |loaded| && loaded[k].id != userId ==>
      !UserEq(loaded[k], FindUser(st.users, userId).value)
    ensures RemovePresenterAsWritten(st, courseId, userId, loaded) == RemovePresenter(st, courseId, userId)
  {
    var u := FindUser(st.users, userId).value;
    if courseId in st.courses {
      assert u in loaded;
      var i :| 0 <= i < |loaded| && loaded[i] == u;
      assert UserEq(loaded[i], u);
      var k := FirstEqual(loaded, u).value;
      var edge := PresenterEdge(courseId, userId);
      assert PresenterEdge(courseId, loaded[k].id) == edge;
      assert {PresenterEdge(courseId, loaded[k].id), edge} == {edge};
      assert RemovePresenterAsWritten(st, courseId, userId, loaded) ==
        Outcome(st.(presenters := st.presenters - {PresenterEdge(courseId, loaded[k].id), edge}), Ok(()), []);
      assert RemovePresenter(st, courseId, userId) == Outcome(st.(presenters := st.presenters - {edge}), Ok(()), []);
    }
  }

  /** Course 7 with two presenters named Smith, Ann and Bob, loaded in that
      order, and a third Smith, Cat, who presents nothing. */
  const Ann := User(1, "Ann Smith", "ann@example.org", PresenterTier)
  const Bob := User(2, "Bob Smith", "bob@example.org", PresenterTier)
  const Cat := User(3, "Cat Smith", "cat@example.org", DefaultTier)

  function SmithStore(): Store {
    Store(map[7 := Course(7, "Workshop", 10, 0, 3600, true, "cal7")], [Ann, Bob, Cat], map[], [],
          {PresenterEdge(7, 1), PresenterEdge(7, 2)}, [])
  }

  /** The three names of the scenario all end in "Smith". */
  lemma SmithsShareASurname()
    ensures UserEq(Ann, Bob) && UserEq(Ann, Cat) && UserEq(Bob, Cat)
  {
    assert Ann.name == "Ann" + " " + "Smith";
    assert Bob.name == "Bob" + " " + "Smith";
    assert Cat.name == "Cat" + " " + "Smith";
    LastNameAfterSpace("Ann", "Smith");
    LastNameAfterSpace("Bob", "Smith");
    LastNameAfterSpace("Cat", "Smith");
  }

  lemma SmithsLoaded()
    ensures LoadedPresenters(SmithStore(), 7, [Ann, Bob])
  {
    var st := SmithStore();
    forall v | v in st.users && PresenterEdge(7, v.id) in st.presenters ensures v in [Ann, Bob] {
      assert v == Ann || v == Bob || v == Cat;
    }
  }

  /** Once the user and the first equal presenter are known, the handler as
      written commits the removal of both edges. */
  lemma RemovePresenterAsWrittenOk(st: Store, courseId: int, userId: int, loaded: seq<User>, u: User, k: nat)
    requires LoadedPresenters(st, courseId, loaded)
    requires courseId in st.courses && FindUser(st.users, userId) == Some(u) && FirstEqual(loaded, u) == Some(k)
    ensures RemovePresenterAsWritten(st, courseId, userId, loaded) ==
      Outcome(st.(presenters := st.presenters - {PresenterEdge(courseId, loaded[k].id), PresenterEdge(courseId, userId)}),
              Ok(()), [])
  {
  }

  /** The scenario's users are found by their ids. */
  lemma SmithsFound()
    ensures FindUser(SmithStore().users, 2) == Some(Bob)
    ensures FindUser(SmithStore().users, 3) == Some(Cat)
  {
    var users := SmithStore().users;
    assert users[1..] == [Bob, Cat] && users[1..][1..] == [Cat];
  }

  /** Deleting Bob takes Ann's edge as well as his own, where the intended
      handler keeps Ann. */
  lemma RemovePresenterAsWrittenDropsNamesake()
    ensures LoadedPresenters(SmithStore(), 7, [Ann, Bob])
    ensures RemovePresenterAsWritten(SmithStore(), 7, 2, [Ann, Bob]).store.presenters == {}
    ensures RemovePresenter(SmithStore(), 7, 2).store.presenters == {PresenterEdge(7, 1)}
  {
    var st := SmithStore();
    SmithsLoaded();
    SmithsShareASurname();
    SmithsFound();
    assert FirstEqual([Ann, Bob], Bob) == Some(0);
    RemovePresenterAsWrittenOk(st, 7, 2, [Ann, Bob], Bob, 0);
    assert st.presenters - {PresenterEdge(7, 1), PresenterEdge(7, 2)} == {};
    assert st.presenters - {PresenterEdge(7, 2)} == {PresenterEdge(7, 1)};
  }

  /** Deleting Cat, who presents nothing, is not refused: Ann's edge goes,
      where the intended handler answers 500. */
  lemma RemovePresenterAsWrittenTakesNamesake()
    ensures LoadedPresenters(SmithStore(), 7, [Ann, Bob])
    ensures RemovePresenterAsWritten(SmithStore(), 7, 3, [Ann, Bob]) ==
      Outcome(SmithStore().(presenters := {PresenterEdge(7, 2)}), Ok(()), [])
    ensures RemovePresenter(SmithStore(), 7, 3).result == Err(InternalError)
  {
    var st := SmithStore();
    SmithsLoaded();
    SmithsShareASurname();
    SmithsFound();
    assert FirstEqual([Ann, Bob], Cat) == Some(0);
    RemovePresenterAsWrittenOk(st, 7, 3, [Ann, Bob], Cat, 0);
    PairMinusPair(PresenterEdge(7, 1), PresenterEdge(7, 2), PresenterEdge(7, 3));
    assert PresenterEdge(7, 3) !in st.presenters;
  }

  /** Adding a new presenter and removing them again restores the edges but
      not the tier: the promotion stays. */
  lemma AddThenRemovePresenter(st: Store, courseId: int, userId: int)
    requires UniqueUserIds(st.users)
    requires AddPresenter(st, courseId, userId).result.Ok?
    ensures var mid := AddPresenter(st, courseId, userId).store;
      var out := RemovePresenter(mid, courseId, userId);
      && out.result.Ok?
      && out.store == st.(users := PromoteAll(st.users, [userId]))
  {
    var edge := PresenterEdge(courseId, userId);
    var mid := AddPresenter(st, courseId, userId).store;
    assert courseId in st.courses && HasUser(st.users, userId) && edge !in st.presenters;
    assert mid == st.(users := PromoteAll(st.users, [userId]), presenters := st.presenters + {edge});
    FindUserPromoteAll(st.users, [userId], userId);
    AddThenRemove(st.presenters, edge);
  }

  /** Presenter changes keep the database well formed. */
  lemma AddPresenterPreservesWellformed(st: Store, courseId: int, userId: int)
    requires Wellformed(st)
    ensures Wellformed(AddPresenter(st, courseId, userId).store)
  {
    var out := AddPresenter(st, courseId, userId);
    var users := out.store.users;
    PromoteAllKeepsRows(st.users, [userId]);
  }

  /** Promotion changes tiers only: ids, emails and the set of ids present are
      kept, so every foreign key and uniqueness constraint survives. */
  lemma PromoteAllKeepsRows(users: seq<User>, ids: seq<int>)
    ensures var r := PromoteAll(users, ids);
      && (forall i :: 0 <= i < |users| ==> r[i].id == users[i].id && r[i].email == users[i].email)
      && (forall id :: HasUser(r, id) <==> HasUser(users, id))
      && (UniqueUserIds(users) ==> UniqueUserIds(r))
      && (UniqueEmails(users) ==> UniqueEmails(r))
  {
    var r := PromoteAll(users, ids);
    forall id ensures HasUser(r, id) <==> HasUser(users, id) {
      if HasUser(r, id) {
        var x :| x in r && x.id == id;
        var i :| 0 <= i < |r| && r[i] == x;
        assert users[i] in users;
      }
      if HasUser(users, id) {
        var x :| x in users && x.id == id;
        var i :| 0 <= i < |users| && users[i] == x;
        assert r[i] in r;
      }
    }
  }
}
