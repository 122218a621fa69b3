/** The sign-in routes of `app/blueprints/auth_blueprint.py`: the OAuth
    callback finds or creates the user by email and signs them in with a
    fresh session holding their menu; logout empties the session. The OAuth
    exchange itself is outside the model: its email and name are inputs. */
module Auth {
  import opened Base
  import opened Models
  import opened Access
  import opened Navigation

  /** The session values the model tracks. */
  datatype SessionValue = Text(text: string) | Flag(flag: bool) | Menu(items: seq<MenuItem>)

  /** The Flask session: string keys to values. */
  type Session = map<string, SessionValue>

  /** What the callback answers with. */
  datatype LoginResult = NullEmailMessage | RedirectHome | LoginFailed(failure: Failure)

  datatype Login = Login(store: Store, session: Session, result: LoginResult)

  /** The id the database gives the next user row: one past the largest id in
      use. */
  function NextUserId(users: seq<User>): (id: int)
    ensures forall u :: u in users ==> u.id < id
    ensures |users| == 0 ==> id == 1
    decreases |users|
  {
    if |users| == 0 then 1
    else
      var rest := NextUserId(users[1..]);
      assert forall u :: u in users[1..] ==> u in users;
      if users[0].id + 1 > rest then users[0].id + 1 else rest
  }

  /** The user `callback` signs in: the row with the email, or the new row
      it creates for it with the default tier. */
  function LoginUser(st: Store, e: string, name: string): (u: User)
    ensures u.email == e
    ensures FindUserByEmail(st.users, e).Some? ==> u == FindUserByEmail(st.users, e).value
    ensures FindUserByEmail(st.users, e).None? ==> u.usertypeId == DefaultTier && !HasUser(st.users, u.id)
  {
    match FindUserByEmail(st.users, e)
    case Some(u) => u
    case None => User(NextUserId(st.users), name, e, DefaultTier)
  }

  /** `callback`: a null email only gets a message. Otherwise the user with
      that email is found, or created with the default tier and committed;
      then they are signed in (`_user_id`, and `_fresh` set because
      `login_user` was just called) and their menu is stored under
      `navigation`. A menu that cannot be built is a 500, after the commit
      and after `login_user`: Flask still saves the session on the error
      response, so the browser is signed in without a stored menu. */
  function Callback(st: Store, session: Session, email: Option<string>, name: string): (r: Login)
    ensures email.None? ==> r == Login(st, session, NullEmailMessage)
    ensures email.Some? && FindUserByEmail(st.users, email.value).Some? ==> r.store == st
    ensures email.Some? && FindUserByEmail(st.users, email.value).None? ==>
      r.store == st.(users := st.users + [LoginUser(st, email.value, name)])
    ensures email.Some? ==>
      var u := LoginUser(st, email.value, name);
      var signedIn := session["_user_id" := Text(IntToDecimal(u.id))]["_fresh" := Flag(true)];
      && (r.result == RedirectHome <==> UserNavigation(r.store, SignedIn(u), true).Ok?)
      && (r.result == RedirectHome ==>
            r.session == signedIn["navigation" := Menu(UserNavigation(r.store, SignedIn(u), true).value)])
      && (r.result != RedirectHome ==> r.result == LoginFailed(InternalError) && r.session == signedIn)
  {
    match email
    case None => Login(st, session, NullEmailMessage)
    case Some(e) =>
      var user := LoginUser(st, e, name);
      var st' := if FindUserByEmail(st.users, e).Some? then st else st.(users := st.users + [user]);
      var signedIn := session["_user_id" := Text(IntToDecimal(user.id))]["_fresh" := Flag(true)];
      match UserNavigation(st', SignedIn(user), true)
      case Err(f) => Login(st', signedIn, LoginFailed(f))
      case Ok(items) => Login(st', signedIn["navigation" := Menu(items)], RedirectHome)
  }

  /** A new user can always be found again by the email they signed in with. */
  lemma {:induction false} FindAppendedByEmail(users: seq<User>, u: User)
    requires FindUserByEmail(users, u.email).None?
    ensures FindUserByEmail(users + [u], u.email) == Some(u)
    decreases |users|
  {
    if |users| > 0 {
      assert (users + [u])[1..] == users[1..] + [u];
      FindAppendedByEmail(users[1..], u);
    }
  }

  /** Signing in with an email always finds a user; a known email keeps its
      row, tier included, and an unknown one gets exactly one new row of the
      default tier. */
  lemma CallbackFindsOrCreates(st: Store, session: Session, e: string, name: string)
    ensures var r := Callback(st, session, Some(e), name);
      && FindUserByEmail(r.store.users, e) == Some(LoginUser(st, e, name))
      && (FindUserByEmail(st.users, e).Some? ==> FindUserByEmail(r.store.users, e) == FindUserByEmail(st.users, e))
      && (FindUserByEmail(st.users, e).None? ==>
            && |r.store.users| == |st.users| + 1
            && FindUserByEmail(r.store.users, e).value.usertypeId == DefaultTier)
  {
    if FindUserByEmail(st.users, e).None? {
      FindAppendedByEmail(st.users, LoginUser(st, e, name));
    }
  }

  /** Signing in keeps every schema invariant: the new row's id and email are
      both unused. */
  lemma CallbackPreservesWellformed(st: Store, session: Session, email: Option<string>, name: string)
    requires Wellformed(st)
    ensures Wellformed(Callback(st, session, email, name).store)
  {
    if email.Some? && FindUserByEmail(st.users, email.value).None? {
      var u := LoginUser(st, email.value, name);
      AppendUserKeepsUnique(st.users, u);
      forall x ensures HasUser(st.users + [u], x) <==> HasUser(st.users, x) || x == u.id {
        HasUserAfterAppend(st.users, u, x);
      }
    }
  }

  /** Signing in twice with the same email adds no second row: the second
      login finds the user the first one created. */
  lemma SecondLoginAddsNothing(st: Store, s1: Session, s2: Session, e: string, n1: string, n2: string)
    ensures var first := Callback(st, s1, Some(e), n1);
      Callback(first.store, s2, Some(e), n2).store == first.store
  {
    CallbackFindsOrCreates(st, s1, e, n1);
  }

  /** `logout`: `session.clear()` drops every key, the user's id and menu
      included. */
  function Logout(session: Session): (r: Session)
    ensures forall k :: k !in r
  {
    map[]
  }

  /** Signing in and then out leaves nothing of the login in the session, so
      the next page builds the anonymous (empty) menu. */
  lemma LoginThenLogout(st: Store, session: Session, e: string, name: string)
    ensures var r := Callback(st, session, Some(e), name);
      && "_user_id" !in Logout(r.session)
      && "navigation" !in Logout(r.session)
      && UserNavigation(r.store, Anonymous, false) == Ok([])
  {
  }
}
