/** The header bar (components/Header.tsx) as pure derived state plus a small
    state machine for its two local flags: the low-stock list and its badge,
    the Syncing/Online/Offline indicator with its queued-sales badge, the
    user's initials and the logo-or-initials avatar, and the user menu and
    notification popover toggles with the logout action. */
module Header {
  import opened Wrappers
  import Seqs
  import Strings

  // ---------------------------------------------------------------------
  // Products and the low-stock notification
  // ---------------------------------------------------------------------

  /** A catalogue product, with the two fields the header reads. */
  datatype Product = Product(productType: string, stock: int)

  /** Out of stock: an inventory-tracked product whose stock is exactly zero
      (services and other product types are never low stock). */
  predicate IsLowStock(p: Product)
  {
    p.productType == "Inventory" && p.stock == 0
  }

  /** `lowStockProducts`: the out-of-stock inventory products, in catalogue
      order. */
  function LowStockProducts(products: seq<Product>): (low: seq<Product>)
    ensures Seqs.IsSubsequence(low, products)
    ensures forall p :: p in low <==> p in products && IsLowStock(p)
    ensures |low| == Seqs.Count(IsLowStock, products)
  {
    Seqs.FilterIsSubsequence(IsLowStock, products);
    Seqs.FilterLength(IsLowStock, products);
    Seqs.Filter(IsLowStock, products)
  }

  /** The low-stock list is the ONLY subsequence of the catalogue made of
      low-stock products that contains all of them: nothing is reordered,
      duplicated or dropped. */
  lemma LowStockProductsUnique(products: seq<Product>, candidate: seq<Product>)
    requires Seqs.IsSubsequence(candidate, products)
    requires forall p :: p in candidate ==> IsLowStock(p)
    requires |candidate| == Seqs.Count(IsLowStock, products)
    ensures candidate == LowStockProducts(products)
  {
    Seqs.FilterUnique(IsLowStock, products, candidate);
  }

  /** The low-stock count reads only product type and stock: catalogues that
      agree on which positions are out-of-stock inventory have the same count. */
  lemma {:induction false} LowStockCountPointwise(a: seq<Product>, b: seq<Product>)
    requires |a| == |b|
    requires forall i :: 0 <= i < |a| ==> (IsLowStock(a[i]) <==> IsLowStock(b[i]))
    ensures |LowStockProducts(a)| == |LowStockProducts(b)|
    decreases |a|
  {
    if |a| > 0 {
      LowStockCountPointwise(a[1..], b[1..]);
      assert Seqs.Count(IsLowStock, a) == (if IsLowStock(a[0]) then 1 else 0) + Seqs.Count(IsLowStock, a[1..]);
    }
  }

  /** The red badge on the bell: shown, with the length of the low-stock
      list, exactly when some product is out of stock. */
  function NotificationBadge(products: seq<Product>): (badge: Option<nat>)
    ensures badge.Some? <==> exists p :: p in products && IsLowStock(p)
    ensures badge.Some? ==> badge.value == |LowStockProducts(products)| && badge.value > 0
  {
    var low := LowStockProducts(products);
    if |low| > 0 then
      assert low[0] in low;
      Some(|low|)
    else
      None
  }

  // ---------------------------------------------------------------------
  // Connectivity indicator
  // ---------------------------------------------------------------------

  datatype Connectivity = Syncing | Online | Offline

  /** The indicator shown: syncing takes priority over online/offline. */
  function ConnectivityStatus(isOnline: bool, isSyncing: bool): (status: Connectivity)
    ensures status == Syncing <==> isSyncing
    ensures status == Online <==> !isSyncing && isOnline
    ensures status == Offline <==> !isSyncing && !isOnline
  {
    if isSyncing then Syncing else if isOnline then Online else Offline
  }

  /** The queued-sales pill next to the indicator: shown, with the queued
      count, only in the Syncing and Offline states and only when sales are
      queued; the Online state never shows it. */
  function QueuedBadge(status: Connectivity, queuedSalesCount: int): (badge: Option<int>)
    ensures badge.Some? <==> status != Online && queuedSalesCount > 0
    ensures badge.Some? ==> badge.value == queuedSalesCount && badge.value > 0
  {
    match status
    case Syncing => if queuedSalesCount > 0 then Some(queuedSalesCount) else None
    case Online => None
    case Offline => if queuedSalesCount > 0 then Some(queuedSalesCount) else None
  }

  // ---------------------------------------------------------------------
  // User identity: initials and avatar
  // ---------------------------------------------------------------------

  /** The signed-in user, with the two fields the header shows. An absent
      name is modelled as the empty name. */
  datatype User = User(name: string, role: string)

  /** `userInitials`: the upper-cased first letters of the first two words
      of the name (words are split on ' ' with empty pieces dropped); a
      single word gives one letter; no user, an empty name or a name of
      spaces only gives "". */
  function Initials(user: Option<User>): (initials: string)
    ensures |initials| <= 2
  {
    if user.None? || user.value.name == "" then ""
    else
      var parts := Strings.Tokens(user.value.name);
      if |parts| > 1 then
        assert parts[0] in parts && parts[1] in parts;
        Strings.Upper([parts[0][0], parts[1][0]])
      else if |parts| == 1 then
        assert parts[0] in parts;
        Strings.Upper([parts[0][0]])
      else ""
  }

  /** The initials are the first (at most) two word-start characters of the
      name, upper-cased, where a word start is a non-space character at the
      beginning of the name or right after a space. */
  lemma InitialsAreWordStarts(user: Option<User>)
    ensures user.None? ==> Initials(user) == ""
    ensures user.Some? ==>
      var starts := Strings.WordStarts(user.value.name, true);
      Initials(user) == Strings.Upper(if |starts| <= 2 then starts else starts[..2])
  {
    if user.Some? {
      var name := user.value.name;
      var starts := Strings.WordStarts(name, true);
      Strings.TokenFirsts(name);
      var parts := Strings.Tokens(name);
      assert |starts| == |parts|;
      if |parts| > 1 {
        assert starts[..2] == [parts[0][0], parts[1][0]];
      } else if |parts| == 1 {
        assert starts == [parts[0][0]];
      }
    }
  }

  /** The initials are empty exactly when there is no user or the name has no
      non-space character. */
  lemma InitialsEmptyIff(user: Option<User>)
    ensures Initials(user) == "" <==>
      user.None? || forall i :: 0 <= i < |user.value.name| ==> user.value.name[i] == ' '
  {
    if user.Some? {
      Strings.TokensEmptyIff(user.value.name);
    }
  }

  lemma TwoWordStarts()
    ensures Strings.WordStarts("Jane Doe", true) == "JD" && Strings.Upper("JD") == "JD"
  {
  }

  lemma OneWordStarts()
    ensures Strings.WordStarts("Madonna", true) == "M" && Strings.Upper("M") == "M"
  {
  }

  /** A two-word name gives both first letters. */
  lemma InitialsOfTwoWordName()
    ensures Initials(Some(User("Jane Doe", "Cashier"))) == "JD"
  {
    InitialsAreWordStarts(Some(User("Jane Doe", "Cashier")));
    TwoWordStarts();
  }

  /** A one-word name gives its first letter. */
  lemma InitialsOfOneWordName()
    ensures Initials(Some(User("Madonna", "Admin"))) == "M"
  {
    InitialsAreWordStarts(Some(User("Madonna", "Admin")));
    OneWordStarts();
  }

  /** No user, or an empty name, gives no initials. */
  lemma InitialsOfNoName()
    ensures Initials(Some(User("", "Admin"))) == ""
    ensures Initials(None) == ""
  {
  }

  datatype Avatar = Logo(url: string) | InitialsText(text: string)

  /** The avatar circle: the business logo when a logo URL is configured
      (non-empty), the user's initials otherwise. */
  function AvatarOf(logoUrl: string, user: Option<User>): (avatar: Avatar)
    ensures avatar.Logo? <==> logoUrl != ""
    ensures avatar.Logo? ==> avatar.url == logoUrl
    ensures avatar.InitialsText? ==> avatar.text == Initials(user) && |avatar.text| <= 2
  {
    if logoUrl != "" then Logo(logoUrl) else InitialsText(Initials(user))
  }

  // ---------------------------------------------------------------------
  // Local UI state: user menu and notification popover
  // ---------------------------------------------------------------------

  datatype HeaderUi = HeaderUi(userMenuOpen: bool, notificationsOpen: bool)

  /** Both flags start closed on mount. */
  const InitialUi := HeaderUi(false, false)

  datatype HeaderEvent =
    | UserMenuClicked   // the avatar button
    | BellClicked       // the notification bell
    | PopoverClosed     // the popover's own close action
    | LogoutClicked     // the Logout entry of the user menu

  /** Callbacks the header invokes on its parent. */
  datatype HeaderCall = CallLogout

  datatype HeaderStep = HeaderStep(ui: HeaderUi, calls: seq<HeaderCall>)

  /** Whether the control behind an event is on screen: the popover exists
      only while open, the Logout entry only while the user menu is open. A
      control counts as gone the moment its flag clears; the exit animation,
      during which it stays clickable, is not modelled. */
  predicate EventEnabled(ui: HeaderUi, e: HeaderEvent)
  {
    match e
    case UserMenuClicked => true
    case BellClicked => true
    case PopoverClosed => ui.notificationsOpen
    case LogoutClicked => ui.userMenuOpen
  }

  /** One click: the avatar and bell buttons negate their own flag, the
      popover's close clears its flag, and Logout closes the user menu and
      asks the parent to log out exactly once. No event touches the other
      component's flag. */
  function HandleEvent(ui: HeaderUi, e: HeaderEvent): (step: HeaderStep)
    ensures e == UserMenuClicked ==>
      step.ui.userMenuOpen == !ui.userMenuOpen && step.ui.notificationsOpen == ui.notificationsOpen
    ensures e == BellClicked ==>
      step.ui.notificationsOpen == !ui.notificationsOpen && step.ui.userMenuOpen == ui.userMenuOpen
    ensures e == PopoverClosed ==>
      !step.ui.notificationsOpen && step.ui.userMenuOpen == ui.userMenuOpen
    ensures e == LogoutClicked ==>
      !step.ui.userMenuOpen && step.ui.notificationsOpen == ui.notificationsOpen
    ensures step.calls == (if e == LogoutClicked then [CallLogout] else [])
  {
    match e
    case UserMenuClicked => HeaderStep(ui.(userMenuOpen := !ui.userMenuOpen), [])
    case BellClicked => HeaderStep(ui.(notificationsOpen := !ui.notificationsOpen), [])
    case PopoverClosed => HeaderStep(ui.(notificationsOpen := false), [])
    case LogoutClicked => HeaderStep(ui.(userMenuOpen := false), [CallLogout])
  }

  /** Clicking the same toggle twice restores the state. */
  lemma ToggleTwiceRestores(ui: HeaderUi, e: HeaderEvent)
    requires e == UserMenuClicked || e == BellClicked
    ensures HandleEvent(HandleEvent(ui, e).ui, e).ui == ui
  {
  }

  /** A sequence of clicks, with the callbacks invoked along the way. */
  function Run(ui: HeaderUi, events: seq<HeaderEvent>): HeaderStep
    decreases |events|
  {
    if |events| == 0 then HeaderStep(ui, [])
    else
      var first := HandleEvent(ui, events[0]);
      var rest := Run(first.ui, events[1..]);
      HeaderStep(rest.ui, first.calls + rest.calls)
  }

  /** Every event is clickable at the moment it happens. */
  predicate ValidRun(ui: HeaderUi, events: seq<HeaderEvent>)
    decreases |events|
  {
    |events| == 0 ||
    (EventEnabled(ui, events[0]) && ValidRun(HandleEvent(ui, events[0]).ui, events[1..]))
  }

  predicate IsLogout(e: HeaderEvent) { e == LogoutClicked }
  predicate IsUserMenuClick(e: HeaderEvent) { e == UserMenuClicked }

  /** The notification flag as an automaton of its own: only the bell and
      the popover's close action move it. */
  function NotificationsFlag(open: bool, events: seq<HeaderEvent>): bool
    decreases |events|
  {
    if |events| == 0 then open
    else
      var next := match events[0]
        case BellClicked => !open
        case PopoverClosed => false
        case _ => open;
      NotificationsFlag(next, events[1..])
  }

  /** The user-menu flag as an automaton of its own: only the avatar button
      and Logout move it. */
  function UserMenuFlag(open: bool, events: seq<HeaderEvent>): bool
    decreases |events|
  {
    if |events| == 0 then open
    else
      var next := match events[0]
        case UserMenuClicked => !open
        case LogoutClicked => false
        case _ => open;
      UserMenuFlag(next, events[1..])
  }

  /** The two flags evolve independently: after any sequence of clicks each
      flag is what its own automaton gives from its own starting value, and
      logout is requested once per Logout click. */
  lemma {:induction false} RunIsIndependentFlags(ui: HeaderUi, events: seq<HeaderEvent>)
    ensures Run(ui, events).ui.notificationsOpen == NotificationsFlag(ui.notificationsOpen, events)
    ensures Run(ui, events).ui.userMenuOpen == UserMenuFlag(ui.userMenuOpen, events)
    ensures |Run(ui, events).calls| == Seqs.Count(IsLogout, events)
    decreases |events|
  {
    if |events| > 0 {
      RunIsIndependentFlags(HandleEvent(ui, events[0]).ui, events[1..]);
    }
  }

  /** Logout can only be clicked while the user menu is open: along any run
      of clickable events, logout is requested at most as often as the avatar
      button was clicked, plus once if the menu was already open. */
  lemma {:induction false} LogoutNeedsOpenMenu(ui: HeaderUi, events: seq<HeaderEvent>)
    requires ValidRun(ui, events)
    ensures |Run(ui, events).calls| <=
      Seqs.Count(IsUserMenuClick, events) + (if ui.userMenuOpen then 1 else 0)
    decreases |events|
  {
    if |events| > 0 {
      var next := HandleEvent(ui, events[0]).ui;
      LogoutNeedsOpenMenu(next, events[1..]);
    }
  }

  /** From the mount state, where both flags are closed, every logout
      request needs its own avatar click. */
  lemma LogoutFromMount(events: seq<HeaderEvent>)
    requires ValidRun(InitialUi, events)
    ensures |Run(InitialUi, events).calls| <= Seqs.Count(IsUserMenuClick, events)
    ensures Seqs.Count(IsLogout, events) <= Seqs.Count(IsUserMenuClick, events)
  {
    LogoutNeedsOpenMenu(InitialUi, events);
    RunIsIndependentFlags(InitialUi, events);
  }

  // ---------------------------------------------------------------------
  // The rendered header
  // ---------------------------------------------------------------------

  /** The header's inputs, reduced to what decides what it shows. The
      install prompt is represented only by whether the platform offered it. */
  datatype HeaderProps = HeaderProps(
    isOnline: bool,
    isSyncing: bool,
    queuedSalesCount: int,
    currentUser: Option<User>,
    products: seq<Product>,
    logoUrl: string,
    installPromptOffered: bool)

  /** What the header shows, with animation and styling stripped. */
  datatype HeaderView = HeaderView(
    status: Connectivity,
    queuedBadge: Option<int>,
    installButton: bool,
    notificationBadge: Option<nat>,
    popover: Option<seq<Product>>,
    avatar: Avatar,
    userName: string,
    userRole: string,
    userMenu: bool)

  /** The whole header. The user's name and role are read without a guard,
      so the header needs a signed-in user. */
  function Render(props: HeaderProps, ui: HeaderUi): (view: HeaderView)
    requires props.currentUser.Some?
    ensures view.status == Syncing <==> props.isSyncing
    ensures view.status == Online <==> !props.isSyncing && props.isOnline
    ensures view.status == Online ==> view.queuedBadge.None?
    ensures view.queuedBadge.Some? <==> (props.isSyncing || !props.isOnline) && props.queuedSalesCount > 0
    ensures view.queuedBadge.Some? ==> view.queuedBadge.value == props.queuedSalesCount
    ensures view.installButton <==> props.installPromptOffered
    ensures view.notificationBadge.Some? <==> exists p :: p in props.products && IsLowStock(p)
    ensures view.notificationBadge.Some? ==> view.notificationBadge.value == |LowStockProducts(props.products)|
    ensures view.popover.Some? <==> ui.notificationsOpen
    ensures view.popover.Some? ==> view.popover.value == LowStockProducts(props.products)
    ensures view.avatar.Logo? <==> props.logoUrl != ""
    ensures view.avatar.Logo? ==> view.avatar.url == props.logoUrl
    ensures view.avatar.InitialsText? ==> view.avatar.text == Initials(props.currentUser)
    ensures view.userName == props.currentUser.value.name && view.userRole == props.currentUser.value.role
    ensures view.userMenu <==> ui.userMenuOpen
  {
    var status := ConnectivityStatus(props.isOnline, props.isSyncing);
    HeaderView(
      status,
      QueuedBadge(status, props.queuedSalesCount),
      props.installPromptOffered,
      NotificationBadge(props.products),
      if ui.notificationsOpen then Some(LowStockProducts(props.products)) else None,
      AvatarOf(props.logoUrl, props.currentUser),
      props.currentUser.value.name,
      props.currentUser.value.role,
      ui.userMenuOpen)
  }
}
