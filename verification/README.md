# KenPOS header and sidebar, modelled in Dafny

This project models the decision logic inside two React components of the
KenPOS point-of-sale web application:

- **Header** (`components/Header.tsx`). It derives the out-of-stock product
  list and the bell's count badge from the catalogue. It picks the
  Syncing/Online/Offline indicator and decides when the queued-sales pill
  shows. It computes the user's initials and chooses between the business
  logo and those initials for the avatar. It owns two local flags, the user
  menu and the notification popover. Logout closes the menu and calls the
  parent's `onLogout`.
- **Sidebar** (`components/Sidebar.tsx`). It holds the fixed navigation
  catalogue (ten entries plus Settings). It filters the catalogue by the
  caller's permissions, keeping catalogue order, and highlights the current
  view. It has two contexts: the desktop panel, where a click only sets the
  view, and the mobile overlay, where a click sets the view and closes the
  overlay. Clicking the overlay's scrim closes it.

Layout:

- `wrappers.dfy` (module `Wrappers`): `Option`, for absent users and hidden badges.
- `seqs.dfy` (module `Seqs`): the order-preserving `filter` both components use. It
  comes with a subsequence relation, a count and a uniqueness theorem: the
  filter is the only subsequence that holds every passing element and
  nothing else.
- `strings.dfy` (module `Strings`): JavaScript's `split(' ')` with its `join` round
  trip, the non-empty tokens (`filter(Boolean)`), a character-level scan of
  word starts used as an independent reference for the tokens' first letters,
  and ASCII upper-casing.
- `header.dfy` (module `Header`) and `sidebar.dfy` (module `Sidebar`): the two components.

Both components' local state and the parent's setter calls are modelled as
pure state-to-state functions over events. An "enabled" predicate says when
the control behind an event is on screen. It treats a control as gone the
moment the flag that shows it clears: the Logout entry is clickable only
while the user menu flag is set, and the overlay's buttons and scrim only
while the overlay flag is set. The exit animation, during which the real
control stays mounted and clickable, is not modelled.

"A logo is configured" and "the user has a name" are JavaScript
truthiness tests in the code, and the model follows them: an empty logo URL
shows the initials, and an empty or missing name gives no initials.

## Model

| member | source | states |
|---|---|---|
| Header.LowStockProducts | components/Header.tsx:52-54 | The low-stock list is a subsequence of the catalogue. A product is in it iff it is in the catalogue with type "Inventory" and stock exactly 0. Its length is the number of such catalogue entries (so at most the catalogue's length). |
| Header.LowStockProductsUnique | components/Header.tsx:52-54 | Any subsequence of the catalogue made of low-stock products that has as many elements as there are low-stock products equals the low-stock list, so the list is exactly those products in catalogue order. |
| Header.LowStockCountPointwise | components/Header.tsx:52-54 | Two catalogues that agree position by position on which products are out-of-stock inventory give the same count, so no other field affects the count. |
| Header.NotificationBadge | components/Header.tsx:156-161 | The bell badge shows iff some catalogue product is out-of-stock inventory, and when shown its value is the low-stock list's length, which is positive. |
| Header.ConnectivityStatus | components/Header.tsx:98-133 | The status is Syncing iff syncing, whatever the online flag. It is Online iff not syncing and online, and Offline iff neither. |
| Header.QueuedBadge | components/Header.tsx:104-131 | The queued-sales pill shows iff the status is not Online and the queued count is positive. When shown it carries that count. |
| Header.Initials | components/Header.tsx:67-74 | With ASCII upper-casing, the initials are at most two characters long. (JavaScript's `toUpperCase` can lengthen a character, so the program itself does not keep this bound for every name.) |
| Header.InitialsAreWordStarts | components/Header.tsx:67-74 | Initials are "" for no user. Otherwise they are the upper-cased first one or two word-start characters of the name. A word start is a non-space character at the start of the name or right after a space. This matches splitting on ' ', dropping empty tokens and taking first characters. |
| Header.InitialsEmptyIff | components/Header.tsx:68-73 | The initials are empty iff there is no user or every character of the name is a space (including the empty name). |
| Header.InitialsOfTwoWordName | components/Header.tsx:70-71 | "Jane Doe" gives "JD". |
| Header.InitialsOfOneWordName | components/Header.tsx:73 | "Madonna" gives "M". |
| Header.InitialsOfNoName | components/Header.tsx:68 | An empty name or no user gives "". |
| Header.AvatarOf | components/Header.tsx:185-189 | The avatar is the logo iff the logo URL is non-empty, and then it shows that URL. Otherwise it shows the user's initials, at most two characters. |
| Header.HandleEvent | components/Header.tsx:61-65 | Logout closes the user menu, leaves the notification flag unchanged and calls `onLogout` exactly once. The avatar button (line 180) negates the user-menu flag and the bell (line 150) negates the notification flag. The popover's close (line 168) clears the notification flag. None of these changes the other flag, and only Logout calls back. |
| Header.ToggleTwiceRestores | components/Header.tsx:150-180 | Clicking the bell or the avatar button twice restores the previous state. |
| Header.RunIsIndependentFlags | components/Header.tsx:49-50 | After any sequence of clicks, each flag equals what its own two-event automaton gives from its own start value, so the two flags evolve independently. `onLogout` is called exactly once per Logout click. |
| Header.LogoutNeedsOpenMenu | components/Header.tsx:200-215 | Along any sequence of clicks on controls that are on screen, logout is requested at most as often as the avatar button was clicked, plus one if the menu started open. The Logout entry is clickable only while the menu flag is set. |
| Header.LogoutFromMount | components/Header.tsx:49-50 | Starting from the mount state, with both flags closed, every Logout click and every logout request needs its own avatar click. |
| Header.Render | components/Header.tsx:98-200 | The header needs a signed-in user, since it reads the name and role without a guard. The indicator is Syncing iff syncing and Online iff online and not syncing. The queued pill never shows when Online, shows iff (syncing or offline) with sales queued, and then carries the count. The install button shows iff an install prompt was offered. The bell badge shows iff some product is out-of-stock inventory and carries the low-stock count. The popover shows iff its flag is set and lists the low-stock products. The avatar is the logo iff a logo URL is set, otherwise the user's initials. The name and role shown are the user's. The user menu shows iff its flag is set. |
| Strings.Split | components/Header.tsx:69 | `split(' ')` yields one more piece than the name has spaces, and no piece contains a space. |
| Strings.SplitThenJoin | components/Header.tsx:69 | Joining the pieces of a split with the separator gives the original string back. |
| Strings.JoinThenSplit | components/Header.tsx:69 | Splitting the join of a non-empty list of separator-free pieces gives the pieces back. |
| Strings.Tokens | components/Header.tsx:69 | Every token is non-empty and space-free, and there are at most one more tokens than spaces. |
| Strings.TokensSpellNonSpaces | components/Header.tsx:69 | The tokens written one after another are the name with its spaces removed, so splitting and dropping empty pieces loses only spaces. |
| Strings.TokensEmptyIff | components/Header.tsx:69-73 | There are no tokens iff every character is a space. |
| Strings.TokenFirsts | components/Header.tsx:69-73 | The first characters of the tokens, in order, are the word-start characters of the name. |
| Strings.Upper | components/Header.tsx:71 | Upper-casing keeps the length and maps each character on its own: a-z to A-Z, everything else unchanged. |
| Seqs.Filter | components/Sidebar.tsx:75 | The filter's result is never longer than its input. It contains an element iff the input contains it and the element passes the test. The same filter models the low-stock list (components/Header.tsx:53) and the dropping of empty name pieces (components/Header.tsx:69). |
| Seqs.FilterUnique | components/Sidebar.tsx:75 | Any subsequence whose elements all pass the test and whose length is the number of passing elements is the filter's result. This makes the filter "exactly the passing elements, in order". |
| Sidebar.CatalogueShape | components/Sidebar.tsx:55-73 | The catalogue has 11 entries: the ten declared items in order, then Settings requiring "view_settings". Every view has exactly one entry, so views are pairwise distinct. |
| Sidebar.VisibleItems | components/Sidebar.tsx:75 | The visible list is a subsequence of the catalogue. An item is in it iff it is a catalogue item whose permission is held. Its views are pairwise distinct. |
| Sidebar.VisibleNeedsPermission | components/Sidebar.tsx:75 | Every visible item's permission is in the caller's list. |
| Sidebar.NoPermissionsNoItems | components/Sidebar.tsx:70-75 | An empty permission list shows no items. |
| Sidebar.AllPermissionsAllItems | components/Sidebar.tsx:70-75 | Holding all eleven catalogue permissions shows the whole catalogue. |
| Sidebar.VisibleMonotone | components/Sidebar.tsx:75 | Holding more permissions never hides an item. The smaller grant's list is a subsequence of the larger one's. |
| Sidebar.PosAndInventoryOnly | components/Sidebar.tsx:55-75 | With only "view_pos" and "view_inventory", exactly the POS and Inventory entries show, POS first. |
| Sidebar.ShownIffListed | components/Sidebar.tsx:75 | The caller holds the permission of a view's entry iff some visible button leads to that view. |
| Sidebar.IsActive | components/Sidebar.tsx:24 | A button is highlighted iff its view is the current view, which is the same as the two views having the same catalogue position. |
| Sidebar.AtMostOneActive | components/Sidebar.tsx:24-75 | At most one visible button is active. One is active iff the caller holds the current view's permission. |
| Sidebar.Handle | components/Sidebar.tsx:97-129 | A panel click makes exactly one call, setting the view. An overlay click makes exactly two, setting the view first and then closing the overlay. The scrim makes exactly one, closing the overlay. Only destination clicks set a view, and nothing the sidebar does opens the overlay. |
| Sidebar.Step | components/Sidebar.tsx:103-125 | An overlay selection sets the view and closes the overlay. A panel selection sets the view and leaves the overlay flag unchanged. The scrim closes the overlay and keeps the view. |
| Sidebar.CurrentViewStaysShown | components/Sidebar.tsx:86-90 | If the caller holds the current view's permission, it still holds the new current view's permission after any sequence of on-screen clicks, because buttons exist only for permitted entries. |
| Sidebar.ClosedOverlayStaysClosed | components/Sidebar.tsx:108-125 | Once the overlay is closed, no sidebar interaction reopens it. |

## Left out

- Rendering, CSS classes, icons, and framer-motion animation (`motion`, `AnimatePresence`, `layoutId`, springs). They are presentational.
- The clock (`setInterval`/`clearInterval`, `new Date()`, `toLocaleTimeString`/`toLocaleDateString` with 'en-GB'). It depends on timers, wall-clock time and locale.
- The install prompt. Only "the button shows iff a prompt event was offered" is modelled, as a boolean prop. `onInstallClick` and the browser event are out.
- The theme toggle (`onToggleTheme`), the mobile menu button (`onMenuClick`), the `currentEvent` "Edition" label, the sidebar's `role` prop and `e.preventDefault()`. They are pass-through callbacks or unused inputs with no logic of their own.
- Opening the mobile overlay. The parent does that through `setIsOpen(true)`, and the parent is not part of this model. Which viewport shows which context (CSS breakpoints) is not modelled either: both contexts' events are always available to the model.
- `LowStockNotificationPopover`, the `ICONS` table and `../types` are not part of this model. `View` has only the eleven catalogue destinations, `Permission` is an opaque string, and `Product`/`User` carry only the fields the header reads. A name that is `undefined` is modelled as the empty name.
- Strings.Upper: models `toUpperCase` for ASCII letters only. Unicode case mapping, including mappings that change length, is not modelled. So `Header.Initials`'s two-character bound holds for the model only: in the program, 'ß' upper-cases to "SS", and the name "ßa ßb" gives "SSSS". Characters are whole code points, not UTF-16 code units.
- Header.Product: `stock` is an unbounded integer. JavaScript's floating-point numbers, such as a stock of 0.5 or -0, are not modelled.
- Header.HeaderProps: `queuedSalesCount` is an unbounded integer. A fractional or NaN count, which JavaScript's `number` allows, is not modelled.
- Header.LogoutNeedsOpenMenu: the bound holds only if the Logout entry stops being clickable the moment the menu flag clears. During the menu's exit animation the entry stays mounted, so a fast second click can request logout again.
- Header.LogoutFromMount: rests on the same assumption. A Logout click during the menu's exit animation is a logout request without a matching avatar click.
