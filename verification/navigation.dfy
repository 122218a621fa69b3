/** The menu helpers of `app/utils.py`: which navigation items each role sees,
    the personal items a fresh session adds, and the `{text, value}` lists the
    select partials render. Icons are markup and are left out. */
module Navigation {
  import opened Base
  import opened Models
  import opened Access

  /** The `element` names of the menu: `schedule`, `documents`, `presenter`,
      `reports`, `admin`, `users`, `create` and `logout`. */
  datatype Element = Schedule | Documents | PresenterPage | Reports | Admin | UsersPage | Create | Logout

  /** A navigation entry; `caption` is its `label` key. */
  datatype MenuItem = MenuItem(element: Element, caption: string, href: string, action: Option<string>)

  /** The three keys of the `permissions` table. */
  datatype Role = UserRole | PresenterRole | SuperAdminRole

  /** The `permissions` key a role name selects; any other name is missing
      from the table. */
  function RoleNamed(name: string): (r: Option<Role>)
    ensures r == Some(UserRole) <==> name == "User"
    ensures r == Some(PresenterRole) <==> name == "Presenter"
    ensures r == Some(SuperAdminRole) <==> name == "SuperAdmin"
  {
    if name == "User" then Some(UserRole)
    else if name == "Presenter" then Some(PresenterRole)
    else if name == "SuperAdmin" then Some(SuperAdminRole)
    else None
  }

  /** `permissions`: the elements each role may see. The table's lists are
      only ever tested for membership, so they are sets here. */
  function Permissions(role: Role): set<Element> {
    match role
    case UserRole => {Schedule, Documents, Logout}
    case PresenterRole => {Schedule, Documents, Admin, Create, Logout}
    case SuperAdminRole => {Schedule, Documents, Admin, UsersPage, Create, Logout}
  }

  const PresenterItem := MenuItem(PresenterPage, "Presenter Dashboard", "/presenter", None)
  const ReportsItem := MenuItem(Reports, "Reports", "/reports", None)
  const AdminItem := MenuItem(Admin, "Event Management", "/admin/events", None)
  const UsersItem := MenuItem(UsersPage, "User Management", "/admin/users", None)
  const CreateItem := MenuItem(Create, "Create Event", "/create", Some("on htmx:afterSwap call makeQuill() end"))
  const LogoutItem := MenuItem(Logout, "Logout", "/logout", None)

  /** The elements of `navigation_items`, in menu order, one at a time. */
  const NavElements: seq<Element> := [PresenterPage] + ([Reports] + ([Admin] + ([UsersPage] + ([Create] + [Logout]))))

  /** The personal items carry the user's id and are built per request. */
  predicate Static(e: Element) {
    e != Schedule && e != Documents
  }

  /** The `navigation_items` entry of a static element. */
  function NavItem(e: Element): (it: MenuItem)
    requires Static(e)
    ensures it.element == e
  {
    match e
    case PresenterPage => PresenterItem
    case Reports => ReportsItem
    case Admin => AdminItem
    case UsersPage => UsersItem
    case Create => CreateItem
    case Logout => LogoutItem
  }

  /** The entries of a list of static elements, in the same order. */
  function Items(es: seq<Element>): (r: seq<MenuItem>)
    requires forall e :: e in es ==> Static(e)
    ensures |r| == |es|
    ensures forall i :: 0 <= i < |es| ==> r[i] == NavItem(es[i])
  {
    seq(|es|, i requires 0 <= i < |es| => NavItem(es[i]))
  }

  /** An item is among the entries of `es` exactly when it is the entry of
      one of the elements. */
  lemma InItems(es: seq<Element>, it: MenuItem)
    requires forall e :: e in es ==> Static(e)
    ensures it in Items(es) <==> it.element in es && Static(it.element) && it == NavItem(it.element)
  {
    var r := Items(es);
    if it.element in es && Static(it.element) && it == NavItem(it.element) {
      var i :| 0 <= i < |es| && es[i] == it.element;
      assert r[i] == it;
    }
  }

  /** Dropping elements drops their entries: the entries of a subsequence
      form a subsequence of the entries. */
  lemma {:induction false} ItemsKeepSubsequence(xs: seq<Element>, ys: seq<Element>)
    requires forall e :: e in ys ==> Static(e)
    requires Subsequence(xs, ys)
    ensures forall e :: e in xs ==> Static(e)
    ensures Subsequence(Items(xs), Items(ys))
    decreases |ys|
  {
    if |xs| == 0 {
    } else if xs[0] == ys[0] && Subsequence(xs[1..], ys[1..]) {
      ItemsKeepSubsequence(xs[1..], ys[1..]);
      assert Items(xs)[1..] == Items(xs[1..]);
      assert Items(ys)[1..] == Items(ys[1..]);
    } else {
      ItemsKeepSubsequence(xs, ys[1..]);
      assert Items(ys)[1..] == Items(ys[1..]);
    }
  }

  /** Every element of `navigation_items` is static. */
  lemma NavElementsStatic()
    ensures forall e :: e in NavElements ==> Static(e)
  {
  }

  /** The entries of one, three or four static elements. */
  lemma ItemsOfOne(a: Element)
    requires Static(a)
    ensures Items([a]) == [NavItem(a)]
  {
  }

  lemma ItemsOfThree(a: Element, b: Element, c: Element)
    requires Static(a) && Static(b) && Static(c)
    ensures Items([a, b, c]) == [NavItem(a), NavItem(b), NavItem(c)]
  {
  }

  lemma ItemsOfFour(a: Element, b: Element, c: Element, d: Element)
    requires Static(a) && Static(b) && Static(c) && Static(d)
    ensures Items([a, b, c, d]) == [NavItem(a), NavItem(b), NavItem(c), NavItem(d)]
  {
  }

  /** `navigation_items`, in menu order. */
  const NavigationItems: seq<MenuItem> := Items(NavElements)

  /** Whether a role name may see an element. */
  function Shown(role: Role): Element -> bool {
    (e: Element) => e in Permissions(role)
  }

  /** The items a role name may see, in menu order. */
  function MenuFor(role: Role): seq<MenuItem> {
    NavElementsStatic();
    Items(Filter(NavElements, Shown(role)))
  }

  /** A role's menu holds exactly the navigation items whose element its
      permissions list. */
  lemma MenuForShowsPermitted(role: Role)
    ensures forall it :: it in MenuFor(role) <==> it in NavigationItems && it.element in Permissions(role)
  {
    NavElementsStatic();
    var es := Filter(NavElements, Shown(role));
    forall it ensures it in Items(es) <==> it in NavigationItems && it.element in Permissions(role) {
      InItems(es, it);
      InItems(NavElements, it);
    }
  }

  /** A role's menu keeps the order of `navigation_items`. */
  lemma MenuForKeepsOrder(role: Role)
    ensures Subsequence(MenuFor(role), NavigationItems)
  {
    NavElementsStatic();
    FilterIsSubsequence(NavElements, Shown(role));
    ItemsKeepSubsequence(Filter(NavElements, Shown(role)), NavElements);
  }

  /** `get_user_navigation_menu`: the menu of the signed-in user's role. A
      user whose tier has no role row fails on `None.name`, and a role name
      the table does not list fails on the lookup: both are 500s. */
  function UserNavigationMenu(st: Store, u: User): (r: Result<seq<MenuItem>>)
    ensures r.Ok? <==> u.usertypeId in st.roles && RoleNamed(st.roles[u.usertypeId]).Some?
    ensures r.Err? ==> r.failure == InternalError
    ensures r.Ok? ==> forall it :: it in r.value <==>
      it in NavigationItems && it.element in Permissions(RoleNamed(st.roles[u.usertypeId]).value)
    ensures r.Ok? ==> Subsequence(r.value, NavigationItems)
  {
    if u.usertypeId !in st.roles then Err(InternalError)
    else match RoleNamed(st.roles[u.usertypeId])
      case None => Err(InternalError)
      case Some(role) =>
        MenuForShowsPermitted(role);
        MenuForKeepsOrder(role);
        Ok(MenuFor(role))
  }

  /** The elements a role sees: `navigation_items` filtered by a test that
      skips the first two, one element at a time. */
  lemma FilterNavigation(keep: Element -> bool)
    requires !keep(PresenterPage) && !keep(Reports)
    ensures Filter(NavElements, keep) ==
      (if keep(Admin) then [Admin] else [])
      + ((if keep(UsersPage) then [UsersPage] else [])
      + ((if keep(Create) then [Create] else [])
      + (if keep(Logout) then [Logout] else [])))
  {
    var tail := [Admin] + ([UsersPage] + ([Create] + [Logout]));
    FilterFour(Admin, UsersPage, Create, Logout, keep);
    FilterCons(Reports, tail, keep);
    FilterCons(PresenterPage, [Reports] + tail, keep);
  }

  /** The elements a role sees, whichever role it is. */
  lemma RoleElements(role: Role)
    ensures Filter(NavElements, Shown(role)) ==
      (if Admin in Permissions(role) then [Admin] else [])
      + ((if UsersPage in Permissions(role) then [UsersPage] else [])
      + ((if Create in Permissions(role) then [Create] else [])
      + (if Logout in Permissions(role) then [Logout] else [])))
  {
    var keep := Shown(role);
    assert !keep(PresenterPage) && !keep(Reports);
    assert keep(Admin) == (Admin in Permissions(role)) && keep(UsersPage) == (UsersPage in Permissions(role));
    assert keep(Create) == (Create in Permissions(role)) && keep(Logout) == (Logout in Permissions(role));
    FilterNavigation(keep);
  }

  /** A role's menu is the entries of the elements it sees. */
  lemma MenuOfElements(role: Role, es: seq<Element>, items: seq<MenuItem>)
    requires forall e :: e in es ==> Static(e)
    requires Filter(NavElements, Shown(role)) == es
    requires Items(es) == items
    ensures MenuFor(role) == items
  {
  }

  /** The entries of the elements each role sees. */
  lemma UserItems()
    ensures forall e :: e in [Logout] ==> Static(e)
    ensures Items([Logout]) == [LogoutItem]
  {
    ItemsOfOne(Logout);
  }

  lemma PresenterItems()
    ensures forall e :: e in [Admin, Create, Logout] ==> Static(e)
    ensures Items([Admin, Create, Logout]) == [AdminItem, CreateItem, LogoutItem]
  {
    ItemsOfThree(Admin, Create, Logout);
  }

  lemma SuperAdminItems()
    ensures forall e :: e in [Admin, UsersPage, Create, Logout] ==> Static(e)
    ensures Items([Admin, UsersPage, Create, Logout]) == [AdminItem, UsersItem, CreateItem, LogoutItem]
  {
    ItemsOfFour(Admin, UsersPage, Create, Logout);
  }

  /** The menus of the three role names, item by item: first for the role,
      then for a user whose tier's role row is named `User`, `Presenter` or
      `SuperAdmin`. */
  lemma UserElements(role: Role)
    requires role == UserRole
    ensures Filter(NavElements, Shown(role)) == [Logout]
  {
    assert Admin !in Permissions(role) && UsersPage !in Permissions(role) && Create !in Permissions(role) && Logout in Permissions(role);
    RoleElements(role);
    Singletons(Logout, Logout, Logout, Logout);
  }

  lemma UserRoleMenu(role: Role)
    requires role == UserRole
    ensures MenuFor(role) == [LogoutItem]
  {
    UserElements(role);
    UserItems();
    MenuOfElements(role, [Logout], [LogoutItem]);
  }

  lemma UserMenu(st: Store, u: User)
    requires u.usertypeId in st.roles && st.roles[u.usertypeId] == "User"
    ensures UserNavigationMenu(st, u) == Ok([LogoutItem])
  {
    UserRoleMenu(RoleNamed(st.roles[u.usertypeId]).value);
  }

  lemma PresenterElements(role: Role)
    requires role == PresenterRole
    ensures Filter(NavElements, Shown(role)) == [Admin, Create, Logout]
  {
    assert Admin in Permissions(role) && UsersPage !in Permissions(role) && Create in Permissions(role) && Logout in Permissions(role);
    RoleElements(role);
    Singletons(Admin, Create, Logout, Logout);
  }

  lemma PresenterRoleMenu(role: Role)
    requires role == PresenterRole
    ensures MenuFor(role) == [AdminItem, CreateItem, LogoutItem]
  {
    PresenterElements(role);
    PresenterItems();
    MenuOfElements(role, [Admin, Create, Logout], [AdminItem, CreateItem, LogoutItem]);
  }

  lemma PresenterMenu(st: Store, u: User)
    requires u.usertypeId in st.roles && st.roles[u.usertypeId] == "Presenter"
    ensures UserNavigationMenu(st, u) == Ok([AdminItem, CreateItem, LogoutItem])
  {
    PresenterRoleMenu(RoleNamed(st.roles[u.usertypeId]).value);
  }

  lemma SuperAdminElements(role: Role)
    requires role == SuperAdminRole
    ensures Filter(NavElements, Shown(role)) == [Admin, UsersPage, Create, Logout]
  {
    assert Admin in Permissions(role) && UsersPage in Permissions(role) && Create in Permissions(role) && Logout in Permissions(role);
    RoleElements(role);
    Singletons(Admin, UsersPage, Create, Logout);
  }

  lemma SuperAdminRoleMenu(role: Role)
    requires role == SuperAdminRole
    ensures MenuFor(role) == [AdminItem, UsersItem, CreateItem, LogoutItem]
  {
    SuperAdminElements(role);
    SuperAdminItems();
    MenuOfElements(role, [Admin, UsersPage, Create, Logout], [AdminItem, UsersItem, CreateItem, LogoutItem]);
  }

  lemma SuperAdminMenu(st: Store, u: User)
    requires u.usertypeId in st.roles && st.roles[u.usertypeId] == "SuperAdmin"
    ensures UserNavigationMenu(st, u) == Ok([AdminItem, UsersItem, CreateItem, LogoutItem])
  {
    SuperAdminRoleMenu(RoleNamed(st.roles[u.usertypeId]).value);
  }

  /** A role with more permissions sees everything a lesser one sees, in the
      same order. */
  lemma MenusGrowWithPermissions(lesser: Role, greater: Role)
    requires forall e :: e in Permissions(lesser) ==> e in Permissions(greater)
    ensures Subsequence(MenuFor(lesser), MenuFor(greater))
  {
    NavElementsStatic();
    FilterMonotone(NavElements, Shown(lesser), Shown(greater));
    FilterIsSubsequence(NavElements, Shown(greater));
    ItemsKeepSubsequence(Filter(NavElements, Shown(greater)), NavElements);
    ItemsKeepSubsequence(Filter(NavElements, Shown(lesser)), Filter(NavElements, Shown(greater)));
  }

  /** The role tiers nest: User within Presenter within SuperAdmin. */
  lemma UserMenuWithinPresenterMenu()
    ensures Subsequence(MenuFor(UserRole), MenuFor(PresenterRole))
  {
    MenusGrowWithPermissions(UserRole, PresenterRole);
  }

  lemma PresenterMenuWithinSuperAdminMenu()
    ensures Subsequence(MenuFor(PresenterRole), MenuFor(SuperAdminRole))
  {
    MenusGrowWithPermissions(PresenterRole, SuperAdminRole);
  }

  /** Every menu entry is static: a menu never holds `schedule` or
      `documents`, which only a fresh session adds. */
  lemma NavigationItemsAreStatic(it: MenuItem)
    ensures it in NavigationItems ==> Static(it.element)
  {
    NavElementsStatic();
    InItems(NavElements, it);
  }

  /** No role lists `presenter` or `reports`, so those two items are never
      shown; and no item is `schedule` or `documents`, which only a fresh
      session adds. */
  lemma UnreachableItems(role: Role)
    ensures PresenterItem !in MenuFor(role) && ReportsItem !in MenuFor(role)
    ensures forall it :: it in MenuFor(role) ==> it.element != Schedule && it.element != Documents
  {
    MenuForShowsPermitted(role);
    assert PresenterPage !in Permissions(role) && Reports !in Permissions(role);
    forall it | it in MenuFor(role) ensures Static(it.element) {
      NavigationItemsAreStatic(it);
    }
  }

  function ScheduleItem(userId: int): MenuItem {
    MenuItem(Schedule, "My Schedule", "/users/" + IntToDecimal(userId) + "/registrations", None)
  }

  function DocumentsItem(userId: int): MenuItem {
    MenuItem(Documents, "Account & Documents", "/users/" + IntToDecimal(userId) + "/documents", None)
  }

  /** `get_user_navigation`: nothing for an anonymous visitor; the role menu
      for a signed-in user, preceded by their schedule and documents pages
      when the session is fresh. `isFresh` is the session's `_fresh` flag. */
  function UserNavigation(st: Store, p: Principal, isFresh: bool): (r: Result<seq<MenuItem>>)
    ensures p.Anonymous? ==> r == Ok([])
    ensures p.SignedIn? ==> (r.Ok? <==> UserNavigationMenu(st, p.user).Ok?)
    ensures p.SignedIn? && r.Ok? && !isFresh ==> r.value == UserNavigationMenu(st, p.user).value
    ensures p.SignedIn? && r.Ok? && isFresh ==>
      && |r.value| == |UserNavigationMenu(st, p.user).value| + 2
      && r.value[0].href == "/users/" + IntToDecimal(p.user.id) + "/registrations"
      && r.value[1].href == "/users/" + IntToDecimal(p.user.id) + "/documents"
      && r.value[2..] == UserNavigationMenu(st, p.user).value
    ensures r.Err? ==> r.failure == InternalError
  {
    match p
    case Anonymous => Ok([])
    case SignedIn(u) =>
      match UserNavigationMenu(st, u)
      case Err(f) => Err(f)
      case Ok(items) => if isFresh then Ok([ScheduleItem(u.id), DocumentsItem(u.id)] + items) else Ok(items)
  }

  /** The personal items appear exactly when the session is fresh, and their
      links name the signed-in user and nobody else. */
  lemma PersonalItemsNameTheUser(st: Store, u: User, isFresh: bool, other: int)
    requires UserNavigationMenu(st, u).Ok?
    requires other != u.id
    ensures var r := UserNavigation(st, SignedIn(u), isFresh).value;
      && (ScheduleItem(u.id) in r <==> isFresh)
      && ScheduleItem(other) !in r
      && DocumentsItem(other) !in r
  {
    var menu := UserNavigationMenu(st, u).value;
    MenuHoldsNoPersonalItems(st, u, u.id);
    MenuHoldsNoPersonalItems(st, u, other);
    PersonalItemsDiffer(other, u.id);
    if isFresh {
      FreshNavigation(st, u);
      InTwoThen(ScheduleItem(u.id), ScheduleItem(u.id), DocumentsItem(u.id), menu);
      InTwoThen(ScheduleItem(other), ScheduleItem(u.id), DocumentsItem(u.id), menu);
      InTwoThen(DocumentsItem(other), ScheduleItem(u.id), DocumentsItem(u.id), menu);
    }
  }

  /** A fresh session's navigation: the two personal items, then the role
      menu. */
  lemma FreshNavigation(st: Store, u: User)
    requires UserNavigationMenu(st, u).Ok?
    ensures UserNavigation(st, SignedIn(u), true).value ==
      [ScheduleItem(u.id), DocumentsItem(u.id)] + UserNavigationMenu(st, u).value
  {
  }

  /** A role menu never holds anyone's personal items. */
  lemma MenuHoldsNoPersonalItems(st: Store, u: User, id: int)
    requires UserNavigationMenu(st, u).Ok?
    ensures ScheduleItem(id) !in UserNavigationMenu(st, u).value
    ensures DocumentsItem(id) !in UserNavigationMenu(st, u).value
  {
    NavigationItemsAreStatic(ScheduleItem(id));
    NavigationItemsAreStatic(DocumentsItem(id));
  }

  /** Two users' personal items differ. */
  lemma PersonalItemsDiffer(a: int, b: int)
    requires a != b
    ensures ScheduleItem(a) != ScheduleItem(b) && DocumentsItem(a) != DocumentsItem(b)
  {
    if ScheduleItem(a) == ScheduleItem(b) {
      PathsDiffer(a, b, "/registrations");
    }
    if DocumentsItem(a) == DocumentsItem(b) {
      PathsDiffer(a, b, "/documents");
    }
  }

  /** Two ids give two different `/users/<id>/...` paths. */
  lemma PathsDiffer(a: int, b: int, suffix: string)
    requires "/users/" + IntToDecimal(a) + suffix == "/users/" + IntToDecimal(b) + suffix
    ensures a == b
  {
    var x, y := "/users/" + IntToDecimal(a) + suffix, "/users/" + IntToDecimal(b) + suffix;
    assert |IntToDecimal(a)| == |IntToDecimal(b)|;
    assert IntToDecimal(a) == x[7..|x| - |suffix|];
    assert IntToDecimal(b) == y[7..|y| - |suffix|];
    DecimalInjective(a, b);
  }

  /** One option of a select partial. */
  datatype SelectOption = SelectOption(text: string, value: int)

  /** `object_to_select` on user rows: one option per row, in row order,
      showing the name and carrying the id. */
  function UsersToSelect(users: seq<User>): (r: seq<SelectOption>)
    ensures |r| == |users|
    ensures forall i :: 0 <= i < |r| ==> r[i].text == users[i].name && r[i].value == users[i].id
  {
    seq(|users|, i requires 0 <= i < |users| => SelectOption(users[i].name, users[i].id))
  }

  /** With unique ids, the value a select option submits looks up the very row
      the option was made from. */
  lemma SelectValuesFindTheirRows(users: seq<User>)
    requires UniqueUserIds(users)
    ensures var r := UsersToSelect(users);
      forall i :: 0 <= i < |r| ==> FindUser(users, r[i].value) == Some(users[i])
  {
    var r := UsersToSelect(users);
    forall i | 0 <= i < |r| ensures FindUser(users, r[i].value) == Some(users[i]) {
      FindIsTheOnlyUser(users, users[i].id, i);
    }
  }
}
