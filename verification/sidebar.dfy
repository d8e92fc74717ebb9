/** The navigation sidebar (components/Sidebar.tsx): a fixed catalogue of
    destinations, filtered by the caller's permissions in catalogue order;
    a button per visible destination that is highlighted when it is the
    current view; and the two rendering contexts, the always-shown desktop
    panel and the dismissible mobile overlay. */
module Sidebar {
  import Seqs

  /** The destinations the sidebar links to. */
  datatype View =
    | POS | Dashboard | Inventory | Purchases | Quotations | AccountsPayable
    | TaxReports | ShiftReport | Customers | Staff | Settings

  /** Permissions are opaque capability tokens such as "view_pos". */
  type Permission = string

  /** One catalogue entry: its view, its button caption (`label` in the
      source) and the permission that gates it. Its icon is presentational. */
  datatype NavItem = NavItem(view: View, caption: string, permission: Permission)

  /** `NAV_ITEMS`: the ten destinations in declared order. */
  const NavItems: seq<NavItem> := [
    NavItem(POS, "POS", "view_pos"),
    NavItem(Dashboard, "Dashboard", "view_dashboard"),
    NavItem(Inventory, "Inventory", "view_inventory"),
    NavItem(Purchases, "Purchases", "view_purchases"),
    NavItem(Quotations, "Quotes", "view_quotations"),
    NavItem(AccountsPayable, "A/P", "view_ap"),
    NavItem(TaxReports, "Tax", "view_tax_reports"),
    NavItem(ShiftReport, "Shift Report", "view_shift_report"),
    NavItem(Customers, "Customers", "view_customers"),
    NavItem(Staff, "Staff", "view_staff")
  ]

  const SettingsItem := NavItem(Settings, "Settings", "view_settings")

  /** `allNavItems`: the ten destinations followed by Settings. */
  const AllNavItems: seq<NavItem> := NavItems + [SettingsItem]

  /** Every permission that gates some catalogue entry. */
  const AllNavPermissions: seq<Permission> := [
    "view_pos", "view_dashboard", "view_inventory", "view_purchases",
    "view_quotations", "view_ap", "view_tax_reports", "view_shift_report",
    "view_customers", "view_staff", "view_settings"
  ]

  function ViewOf(item: NavItem): View { item.view }

  /** The catalogue position of each view's entry. */
  function Position(v: View): nat
  {
    match v
    case POS => 0 case Dashboard => 1 case Inventory => 2 case Purchases => 3
    case Quotations => 4 case AccountsPayable => 5 case TaxReports => 6
    case ShiftReport => 7 case Customers => 8 case Staff => 9 case Settings => 10
  }

  /** The catalogue has eleven entries, Settings last, requiring
      "view_settings"; every view has exactly one entry, at its position. */
  lemma CatalogueShape()
    ensures |AllNavItems| == 11
    ensures AllNavItems[..10] == NavItems && AllNavItems[10] == SettingsItem
    ensures AllNavItems[10].view == Settings && AllNavItems[10].permission == "view_settings"
    ensures forall v :: Position(v) < |AllNavItems| && AllNavItems[Position(v)].view == v
    ensures forall i :: 0 <= i < |AllNavItems| ==> Position(AllNavItems[i].view) == i
    ensures Seqs.DistinctBy(ViewOf, AllNavItems)
  {
    assert forall i :: 0 <= i < |AllNavItems| ==> Position(AllNavItems[i].view) == i;
    forall i, j | 0 <= i < j < |AllNavItems|
      ensures ViewOf(AllNavItems[i]) != ViewOf(AllNavItems[j])
    {
      assert Position(AllNavItems[i].view) != Position(AllNavItems[j].view);
    }
  }

  /** The test `permissions.includes(item.permission)`. */
  function Grants(permissions: seq<Permission>): NavItem -> bool
  {
    (item: NavItem) => item.permission in permissions
  }

  /** `visibleItems`: the catalogue entries whose permission the caller
      holds, in catalogue order. */
  function VisibleItems(permissions: seq<Permission>): (visible: seq<NavItem>)
    ensures Seqs.IsSubsequence(visible, AllNavItems)
    ensures forall item :: item in visible <==> item in AllNavItems && item.permission in permissions
    ensures Seqs.DistinctBy(ViewOf, visible)
    ensures |visible| <= |AllNavItems|
  {
    CatalogueShape();
    Seqs.FilterIsSubsequence(Grants(permissions), AllNavItems);
    Seqs.FilterDistinctBy(Grants(permissions), ViewOf, AllNavItems);
    Seqs.Filter(Grants(permissions), AllNavItems)
  }

  /** No item is shown without its permission. */
  lemma VisibleNeedsPermission(permissions: seq<Permission>)
    ensures forall i :: 0 <= i < |VisibleItems(permissions)| ==>
      VisibleItems(permissions)[i].permission in permissions
  {
    var visible := VisibleItems(permissions);
    forall i | 0 <= i < |visible|
      ensures visible[i].permission in permissions
    {
      assert visible[i] in visible;
    }
  }

  /** An empty permission list shows nothing. */
  lemma NoPermissionsNoItems()
    ensures VisibleItems([]) == []
  {
    Seqs.FilterNone(Grants([]), AllNavItems);
  }

  /** Every catalogue entry's permission is one of the catalogue permissions. */
  lemma CataloguePermissions()
    ensures forall i :: 0 <= i < |AllNavItems| ==> AllNavItems[i].permission in AllNavPermissions
  {
  }

  /** Holding every catalogue permission shows the whole catalogue. */
  lemma AllPermissionsAllItems(permissions: seq<Permission>)
    requires forall p :: p in AllNavPermissions ==> p in permissions
    ensures VisibleItems(permissions) == AllNavItems
  {
    CataloguePermissions();
    forall item | item in AllNavItems
      ensures Grants(permissions)(item)
    {
      var i :| 0 <= i < |AllNavItems| && AllNavItems[i] == item;
      assert item.permission in AllNavPermissions;
    }
    Seqs.FilterAll(Grants(permissions), AllNavItems);
  }

  /** Granting more permissions never hides an item and keeps the order:
      the smaller grant's list is a subsequence of the larger one's. */
  lemma VisibleMonotone(fewer: seq<Permission>, more: seq<Permission>)
    requires forall p :: p in fewer ==> p in more
    ensures Seqs.IsSubsequence(VisibleItems(fewer), VisibleItems(more))
    ensures forall item :: item in VisibleItems(fewer) ==> item in VisibleItems(more)
  {
    Seqs.FilterMonotone(Grants(fewer), Grants(more), AllNavItems);
  }

  /** With only the POS and inventory permissions, exactly those two entries
      show, POS first. */
  lemma PosAndInventoryOnly()
    ensures VisibleItems(["view_pos", "view_inventory"]) == [NavItems[0], NavItems[2]]
  {
    var permissions := ["view_pos", "view_inventory"];
    var grants := Grants(permissions);
    var candidate := [NavItems[0], NavItems[2]];
    assert Seqs.IsSubsequence(candidate[1..], AllNavItems[2..]);
    assert Seqs.IsSubsequence(candidate[1..], AllNavItems[1..]);
    assert Seqs.IsSubsequence(candidate, AllNavItems);
    var k := 11;
    while k > 0
      invariant 0 <= k <= 11
      invariant Seqs.Count(grants, AllNavItems[k..]) == (if k == 0 then 2 else if k <= 2 then 1 else 0)
    {
      k := k - 1;
      Seqs.CountAt(grants, AllNavItems, k);
    }
    assert AllNavItems[0..] == AllNavItems;
    Seqs.FilterUnique(grants, AllNavItems, candidate);
  }

  /** `NavButton`'s `isActive`: the button for `view` is highlighted. */
  predicate IsActive(currentView: View, view: View): (active: bool)
    ensures active <==> Position(currentView) == Position(view)
  {
    currentView == view
  }

  /** The permission that gates `view`'s entry. */
  function RequiredPermission(view: View): Permission
  {
    CatalogueShape();
    AllNavItems[Position(view)].permission
  }

  /** The caller holds the permission of `view`'s entry. */
  predicate IsShown(permissions: seq<Permission>, view: View)
  {
    RequiredPermission(view) in permissions
  }

  /** A view's entry is permitted exactly when some visible button leads to it. */
  lemma ShownIffListed(permissions: seq<Permission>, view: View)
    ensures IsShown(permissions, view) <==>
      exists i :: 0 <= i < |VisibleItems(permissions)| && VisibleItems(permissions)[i].view == view
  {
    var visible := VisibleItems(permissions);
    CatalogueShape();
    var entry := AllNavItems[Position(view)];
    if IsShown(permissions, view) {
      assert entry in AllNavItems;
      assert entry in visible;
      var i :| 0 <= i < |visible| && visible[i] == entry;
    }
    if i :| 0 <= i < |visible| && visible[i].view == view {
      assert visible[i] in visible;
      var j :| 0 <= j < |AllNavItems| && AllNavItems[j] == visible[i];
      assert Position(AllNavItems[j].view) == j;
    }
  }

  /** At most one visible button is active, and one is exactly when the
      caller holds the current view's permission. */
  lemma AtMostOneActive(permissions: seq<Permission>, currentView: View)
    ensures forall i, j ::
      (&& 0 <= i < |VisibleItems(permissions)| && 0 <= j < |VisibleItems(permissions)|
       && IsActive(currentView, VisibleItems(permissions)[i].view)
       && IsActive(currentView, VisibleItems(permissions)[j].view)) ==> i == j
    ensures (exists i :: 0 <= i < |VisibleItems(permissions)| &&
               IsActive(currentView, VisibleItems(permissions)[i].view))
      <==> IsShown(permissions, currentView)
  {
    ShownIffListed(permissions, currentView);
  }

  // ---------------------------------------------------------------------
  // Selection and the mobile overlay
  // ---------------------------------------------------------------------

  /** The state the sidebar reads and asks its parent to change. */
  datatype NavState = NavState(currentView: View, isOpen: bool)

  /** Where a destination was picked: the desktop panel or the mobile overlay. */
  datatype NavContext = Panel | Overlay

  datatype NavEvent =
    | Select(context: NavContext, view: View)   // a destination button
    | ScrimClicked                              // the dimmed background behind the overlay

  /** The setter callbacks the sidebar invokes, in order. */
  datatype NavCall = SetCurrentView(view: View) | SetIsOpen(open: bool)

  /** The calls one event triggers: a panel button only sets the view; an
      overlay button sets the view and then closes the overlay; the scrim
      only closes it. */
  function Handle(e: NavEvent): (calls: seq<NavCall>)
    ensures e.Select? ==> |calls| >= 1 && calls[0] == SetCurrentView(e.view)
    ensures (exists v :: SetCurrentView(v) in calls) <==> e.Select?
    ensures SetIsOpen(false) in calls <==> (e == ScrimClicked || (e.Select? && e.context == Overlay))
    ensures SetIsOpen(true) !in calls
    ensures |calls| == (if e.Select? && e.context == Overlay then 2 else 1)
  {
    match e
    case Select(Panel, v) => [SetCurrentView(v)]
    case Select(Overlay, v) => [SetCurrentView(v), SetIsOpen(false)]
    case ScrimClicked => [SetIsOpen(false)]
  }

  /** The parent's state after one setter call. */
  function ApplyCall(s: NavState, c: NavCall): NavState
  {
    match c
    case SetCurrentView(v) => s.(currentView := v)
    case SetIsOpen(b) => s.(isOpen := b)
  }

  /** The parent applying the setter calls in order. */
  function Apply(s: NavState, calls: seq<NavCall>): NavState
    decreases |calls|
  {
    if |calls| == 0 then s else Apply(ApplyCall(s, calls[0]), calls[1..])
  }

  /** Applying one or two setter calls, spelled out. */
  lemma ApplyShort(s: NavState, calls: seq<NavCall>)
    requires 1 <= |calls| <= 2
    ensures Apply(s, calls) ==
      if |calls| == 1 then ApplyCall(s, calls[0])
      else ApplyCall(ApplyCall(s, calls[0]), calls[1])
  {
    var first := ApplyCall(s, calls[0]);
    var rest := calls[1..];
    if |calls| == 2 {
      assert rest[0] == calls[1] && rest[1..] == [];
      assert Apply(first, rest) == Apply(ApplyCall(first, calls[1]), []);
    } else {
      assert rest == [];
    }
  }

  /** One interaction and its effect on the parent's state. */
  function Step(s: NavState, e: NavEvent): (s': NavState)
    ensures e.Select? && e.context == Overlay ==> s'.currentView == e.view && !s'.isOpen
    ensures e.Select? && e.context == Panel ==> s'.currentView == e.view && s'.isOpen == s.isOpen
    ensures e == ScrimClicked ==> s'.currentView == s.currentView && !s'.isOpen
  {
    ApplyShort(s, Handle(e));
    Apply(s, Handle(e))
  }

  /** Whether the control behind an event is on screen: only visible
      destinations have buttons, and the overlay (its buttons and its scrim)
      exists only while open. The overlay counts as gone the moment its flag
      clears; its exit animation, during which it stays clickable, is not
      modelled. */
  predicate Enabled(permissions: seq<Permission>, s: NavState, e: NavEvent)
  {
    match e
    case Select(Panel, v) => IsShown(permissions, v)
    case Select(Overlay, v) => s.isOpen && IsShown(permissions, v)
    case ScrimClicked => s.isOpen
  }

  function Run(s: NavState, events: seq<NavEvent>): NavState
    decreases |events|
  {
    if |events| == 0 then s else Run(Step(s, events[0]), events[1..])
  }

  predicate ValidRun(permissions: seq<Permission>, s: NavState, events: seq<NavEvent>)
    decreases |events|
  {
    |events| == 0 ||
    (Enabled(permissions, s, events[0]) && ValidRun(permissions, Step(s, events[0]), events[1..]))
  }

  /** Once the current view has a visible entry, clicking around the sidebar
      keeps it on a visible entry: the sidebar can only select what it shows. */
  lemma {:induction false} CurrentViewStaysShown(permissions: seq<Permission>, s: NavState, events: seq<NavEvent>)
    requires IsShown(permissions, s.currentView)
    requires ValidRun(permissions, s, events)
    ensures IsShown(permissions, Run(s, events).currentView)
    decreases |events|
  {
    if |events| > 0 {
      CurrentViewStaysShown(permissions, Step(s, events[0]), events[1..]);
    }
  }

  /** The sidebar itself never opens the overlay: once closed, it stays
      closed whatever is clicked. */
  lemma {:induction false} ClosedOverlayStaysClosed(s: NavState, events: seq<NavEvent>)
    requires !s.isOpen
    ensures !Run(s, events).isOpen
    decreases |events|
  {
    if |events| > 0 {
      ClosedOverlayStaysClosed(Step(s, events[0]), events[1..]);
    }
  }
}
