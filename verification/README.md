# Storefront theme scripts: a Dafny model

This project models the decision logic in four of a Shopify theme's
JavaScript assets:

- **The cart drawer** (`assets/cart-drawer.js`):
  - `CartDrawerItems.updateQuantity`: the change request, the free-sample follow-up bulk update, the error branch, the `is-empty` flags, section reconciliation, the live-region message, the focus target, and the loading bracket.
  - The one-click controls: add and remove a sample, add a recommendation, add a subscription.
  - The subscription toggle.
  - The drawer's gift-note toggle, its swiper re-entrancy flag, `open`, `close`, `renderContents` and `updateCartCount`.
  - `CartQuantityInput`'s rule that minus at 1 removes the line.
- **The header** (`assets/header.js`): the sticky header's scroll state machine, the cart-count resolution and indicator, and the mega menu's one-time swiper set-up table.
- **The fragrance filter** (`assets/fragrance-filter.js`): the active set, the card visibility predicate, swatch toggling, and URL activation.
- **The accordion title rewrite** (`assets/nue-collapsible-content.js`): `FRAGRANCE` followed by whitespace becomes `FRAGRANCE<br>` on a wide window and is meant to turn back on a narrow one.

## How the model is built

Everything is a pure function over immutable data:

- **The document** is an abstract page, `map<Handle, Element>`, in module `Dom`. An element carries:
  - its markup;
  - the markup of descendants that selectors reach;
  - classes, attributes and `value`.
- **HTML parsing** (`DOMParser` followed by `querySelector`) is a function parameter, `Extractor`.
- **Network replies** are inputs of type `Reply`: a parsed body with its HTTP status, or a rejection.
- **Calls into code the scripts do not define** are recorded as an effect trace, in order. These are `updateLiveRegions`, `trapFocus`, `publish`, the loading toggles and the re-initialisers.
- **A thrown `TypeError`** sends the run to the `.catch` handler, as in the code.

Module `Js` states the built-ins the scripts rely on over `seq<char>`:

- `trim` and the `\s` class;
- `includes` and `indexOf`;
- `replace` with a string pattern or a global literal regex;
- `parseInt` without a radix, including the `0x` prefix;
- `String(n)`.

`CartDrawerItems` is defined twice in `assets/cart-drawer.js`. The copies differ only in the tooltip re-initialisation (lines 484-486). One function models both, with the flag `Env.tooltipReinit`.

Where the code and the theme's documented behaviour differ, the model follows the code:

- A failure of the follow-up bulk update lands in `.catch`, like any other failure. It is not swallowed.
- `updateQuantity` has no per-line in-flight lock.
- A non-ok HTTP status of the change reply is only logged.
- `_sample` must be the string `'true'`.

## Model

| member | source | states |
|---|---|---|
| Js.IndexOf | assets/nue-collapsible-content.js:17 | `indexOf` finds the leftmost occurrence; it is absent exactly when `includes` is false |
| Js.ReplaceFirst | assets/cart-drawer.js:707 | `replace` with a string pattern rewrites the leftmost occurrence (none starts earlier) and leaves the text alone when the pattern is absent |
| Js.ParseIntOfNatToString | assets/cart-drawer.js:703 | `parseInt(String(n)) === n` for every non-negative count |
| Js.ParseIntOfHex | assets/header.js:355 | without a radix, `parseInt` reads the digits after a `0x` or `0X` prefix in base sixteen, and a prefix with no digit after it is `NaN` |
| Dom.SetClass | assets/cart-drawer.js:661 | `classList.toggle(c, on)` leaves `c` present iff `on` and changes no other class, attribute or markup |
| Dom.WriteTarget | assets/cart-drawer.js:681-688 | the markup goes into the descendant the selector matches, else replaces the element's own markup |
| Dom.SetTextOn | assets/cart-drawer.js:731-732 | `textContent = text` changes only that element's markup |
| Cart.SectionId | assets/cart-drawer.js:551-557 | the drawer's section key is its non-empty `data-id`, else `'cart-drawer'` |
| Cart.DrawerSections | assets/cart-drawer.js:550-573 | the two sections rendered: the drawer's `.drawer__inner` under the section key, and the bubble's `.shopify-section` |
| Cart.SampleUpdates | assets/cart-drawer.js:614-626 | the update map holds 0 for exactly the keys (`key`, else `id`) of the sample lines |
| Cart.FollowUp | assets/cart-drawer.js:609-644 | a follow-up is sent iff the threshold is truthy, the total is below it, and some line is a sample; its map zeroes exactly the samples |
| Sections.ApplySections | assets/cart-drawer.js:668-689 | the loop changes no element that no applicable section names, and no class or attribute anywhere |
| Sections.ApplySectionsWrites | assets/cart-drawer.js:668-689 | with distinct ids, each applicable section's destination holds exactly the markup extracted for it, whatever the other sections did |
| Sections.ApplySectionsAt | assets/cart-drawer.js:668-689 | a section whose markup is missing or whose element is absent is skipped; its destination keeps its markup |
| QuantityUpdate.QuantityInput | assets/cart-drawer.js:651-652 | `#Quantity-<line>`, else `#Drawer-quantity-<line>`, and only an existing element |
| QuantityUpdate.LiveMessage | assets/cart-drawer.js:701-709 | `''` unless the row counts match and the line's quantity differs from the input; the generic error for a missing line; otherwise `quantityError` with the first `[quantity]` replaced |
| QuantityUpdate.FocusEffects | assets/cart-drawer.js:712-722 | at most one focus move: the edited control if present, else the empty state when the cart is empty, else the first item name, and the last two only with a drawer |
| QuantityUpdate.MarkEmpty | assets/cart-drawer.js:661-666 | `is-empty` on the items list, the footer and the drawer iff the cart is empty; every other element and class is kept |
| QuantityUpdate.Hooks | assets/cart-drawer.js:691-699 | the swiper re-init happens iff there is a drawer, the tooltip re-init iff the live class copy has it, and no hook announces or moves focus |
| QuantityUpdate.Repaint | assets/cart-drawer.js:661-726 | every element is kept; a reply without `sections` throws after the flags are set, with no effect; otherwise it throws exactly when the rows match and the quantity input is missing |
| QuantityUpdate.Caught | assets/cart-drawer.js:728-733 | the catch handler hides spinners and writes the generic error into `#cart-errors`, else `#CartDrawer-CartErrors`, and changes nothing else |
| QuantityUpdate.ErrorRegion | assets/cart-drawer.js:731 | `#cart-errors` whenever it exists, else `#CartDrawer-CartErrors`, and nothing exactly when the page has neither |
| QuantityUpdate.Pipeline | assets/cart-drawer.js:605-733 | the only request sent after the change is the sample bulk update, exactly when called for; a rejected request ends in the catch handler |
| QuantityUpdate.Settled | assets/cart-drawer.js:605-645 | the repaint reads the change reply when no follow-up is sent, else the bulk update's reply; a rejection of either leaves nothing to repaint |
| QuantityUpdate.UpdateQuantity | assets/cart-drawer.js:576-737 | every path opens with `enableLoading(line)` and the change request and closes with `disableLoading(line)`, with no other loading toggle |
| QuantityUpdate.UpdateQuantityRequests | assets/cart-drawer.js:587-635 | the requests are the change for the drawer sections, then the bulk update for the same sections exactly when the follow-up rule fires |
| QuantityUpdate.AnnouncementsOfUpdate | assets/cart-drawer.js:582 | the loading bracket and the change request announce nothing |
| QuantityUpdate.ErrorsRevertInput | assets/cart-drawer.js:655-659 | on `errors`, the input reverts to its `value` attribute, the errors are the only announcement, and nothing else changes; without an input the run is caught |
| QuantityUpdate.EmptyFlag | assets/cart-drawer.js:661-666 | after a reply without errors, the three holders carry `is-empty` iff `item_count == 0`, even when the repaint throws later |
| QuantityUpdate.SectionsReconciled | assets/cart-drawer.js:668-689 | each drawer section holds the extracted markup when the reply carries it and the element exists, and is untouched otherwise |
| QuantityUpdate.LiveMessageAnnounced | assets/cart-drawer.js:701-710 | when the repaint completes, exactly one announcement is made: the live message |
| QuantityUpdate.NoMessageWhenInputAgrees | assets/cart-drawer.js:703 | an input showing `String(n)` for the line's new quantity `n` gets the empty message |
| QuantityUpdate.NothingElseChanges | assets/cart-drawer.js:646-733 | after a reply without errors, no element outside the flag holders, the two sections and the error regions changes |
| QuantityUpdate.RejectedShowsError | assets/cart-drawer.js:728-736 | a rejected change request gives exactly: loading on, the change request, spinners hidden, loading off; plus the generic error |
| QuantityUpdate.StatusIgnored | assets/cart-drawer.js:598-604 | the change reply's HTTP status does not affect the outcome |
| QuantityUpdate.OnButtonClick | assets/cart-drawer.js:1433-1461 | minus on an input reading 1 in a cart row clicks the remove button, else updates the line to 0 via `data-index`, else steps as usual |
| QuantityUpdate.MinusAtOneRemoves | assets/cart-drawer.js:1438 | with the input showing `String(n)`, minus removes the line iff `n == 1` |
| CartControls.RequestOf | assets/cart-drawer.js:1131-1142 | each control posts its id for the drawer sections; only the subscription add carries a selling plan; remove sets quantity 0 |
| CartControls.UpdateSections | assets/cart-drawer.js:823-845 | without `sections` nothing changes; otherwise each applicable drawer section is refreshed, a drawer section that does not apply keeps its element, and nothing else changes |
| CartControls.ShowError | assets/cart-drawer.js:1011-1017 | the message goes to `#CartDrawer-CartErrors` only |
| CartControls.Release | assets/cart-drawer.js:1041-1047 | `finally` clears `disabled` and `loading`; the recommendation controls re-enable their button, the sample controls (lines 792-793 and 899-900) leave it as it was |
| CartControls.Click | assets/cart-drawer.js:758-1048 | a guarded control clicked while disabled changes nothing; a malformed `data-layer` throws before the request, leaving the control busy (the remove-sample control untouched, since it parses first); otherwise exactly its request is sent and the busy state is released; any reply but a 422 on a recommendation control leaves the page as `UpdateSections` of the reply (unchanged without `sections`), and schedules the swiper re-init iff there is a wrapper and either the control is a recommendation or the reply has `sections` |
| CartControls.SamplesUnguarded | assets/cart-drawer.js:760-766 | the sample controls send their request even while disabled |
| CartControls.UnavailableRemovesSlide | assets/cart-drawer.js:1008-1021 | a 422 body shows its message or the default, removes the slide, and updates no section |
| CartControls.RejectedMessage | assets/cart-drawer.js:1030-1040 | a failed request shows the control's failure message and changes nothing else |
| CartControls.SwiperReinitPlacement | assets/cart-drawer.js:1023-1028 | the swiper re-init follows every non-422 reply on the recommendation controls, and only replies with `sections` on the sample controls |
| Drawer.InitGiftNote | assets/cart-drawer.js:65-99 | with the toggle and section present, the stored closure is unbound and one fresh closure is stored and bound |
| Drawer.BindingInvKept | assets/cart-drawer.js:69-98 | only the stored closure is ever bound, across re-inits and fresh markup |
| Drawer.AtMostOneHandler | assets/cart-drawer.js:69-98 | however often it runs, at most one click handler is bound, and exactly one after a call that found the toggle |
| Drawer.ClickNote | assets/cart-drawer.js:76-95 | a click flips `aria-expanded` and `hidden` together and sets the label to match |
| Drawer.ClickPairs | assets/cart-drawer.js:78-88 | a click leaves the three pieces paired, and two clicks restore a paired state |
| Drawer.ClickAfterInit | assets/cart-drawer.js:97 | with the single bound handler a click flips the note; two stacked handlers would cancel out |
| Drawer.InitSwiper | assets/cart-drawer.js:101-107 | a call while initialising does nothing; otherwise the flag is set and one callback is scheduled |
| Drawer.SwiperFires | assets/cart-drawer.js:110-200 | the scheduled callback clears the flag on every path that returns normally; a throw from `destroy` or `new Swiper` leaves it as it was |
| Drawer.GuardInvKept | assets/cart-drawer.js:101-200 | the flag is set exactly while a callback is pending, so initialisations never overlap |
| Drawer.ThrowWedgesSwiper | assets/cart-drawer.js:101-199 | after a callback throws, the flag stays set with nothing pending, and every later `initRecommendationsSwiper` returns at once |
| Drawer.SwiperFiresFixed | assets/cart-drawer.js:110-200 | with the reset in a `finally`, the callback clears the flag on every path, a throw included |
| Drawer.FixedNeverWedges | assets/cart-drawer.js:101-200 | with the reset in a `finally`, a throwing callback keeps the guard invariant, and the next `initRecommendationsSwiper` schedules a fresh callback |
| Drawer.Open | assets/cart-drawer.js:28-57 | open re-inits the gift note, activates the drawer, locks the body and arms one `transitionend` |
| Drawer.Close | assets/cart-drawer.js:59-63 | close deactivates and unlocks and changes nothing else |
| Drawer.TransitionEnd | assets/cart-drawer.js:39-54 | the transition end initialises the swiper unless a render is in progress |
| Drawer.StackedCloseHarmless | assets/cart-drawer.js:250 | any number of stacked overlay `close` listeners act as one |
| Drawer.RenderSections | assets/cart-drawer.js:298-307 | `renderContents` always reads the drawer's markup under `'cart-drawer'` into `#CartDrawer`, and the bubble's under its own key from `.shopify-section` |
| Drawer.RenderStart | assets/cart-drawer.js:218-236 | render sets the flag and removes `is-empty` from the `.drawer__inner` it queried (before any throw); with `sections` each existing section element gets its extracted markup; a missing `.drawer__inner` throws, and a reply without `sections` throws exactly when some section element exists, writing nothing |
| Drawer.RenderOpen | assets/cart-drawer.js:250-252 | the 50 ms step adds one overlay listener and opens the drawer |
| Drawer.RenderDone | assets/cart-drawer.js:255-259 | the final step initialises the swiper and clears the flag |
| Drawer.RenderInitialisesSwiperOnce | assets/cart-drawer.js:218-261 | a full render schedules exactly one swiper initialisation |
| Drawer.CountText | assets/cart-drawer.js:281 | the count text is never empty and is all digits |
| Drawer.CountTextReadsBack | assets/cart-drawer.js:281 | the count text `count \|\| '0'` reads back as the count, 0 when missing |
| Drawer.FirstFound | assets/cart-drawer.js:264-278 | the first lookup that finds an element, and none before it did |
| Drawer.UpdateCartCount | assets/cart-drawer.js:263-283 | only the first element found gets the count text; nothing changes when none is found |
| Header.Initial | assets/header.js:7-16 | the starting state is visible, at 0, sticky, and satisfies the invariant |
| Header.ShowHeader | assets/header.js:81-87 | `showHeader` always ends visible and keeps the classes in step |
| Header.HideHeader | assets/header.js:89-95 | `hideHeader` always ends hidden and keeps the classes in step |
| Header.HideRecheckRedundant | assets/header.js:90 | with the classes in step, the `lastScrollTop <= 5` re-hide changes nothing |
| Header.HandleScroll | assets/header.js:45-79 | for any real position, `--scrolled` iff `scrollTop > 5`; the art text is hidden iff `scrollTop > 10`; `lastScrollTop` becomes `max(scrollTop, 0)` |
| Header.VisibilityRule | assets/header.js:64-76 | at or below 5 the header shows; above it, up shows, down hides, and equal keeps |
| Header.ScrollRunKeepsInv | assets/header.js:78 | along any scroll sequence the hidden class matches visibility and `lastScrollTop` stays non-negative |
| Header.ResolveCount | assets/header.js:348-369 | with p the parsed count of the bubble when it exists, else of the drawer count (0 for a missing element, empty text or text that does not parse): p when non-zero; otherwise `window.cart.item_count` when present, else 0 |
| Header.DrawerCountOnlyWithoutBubble | assets/header.js:358-364 | with a bubble, the drawer count is never consulted |
| Header.SyncIndicator | assets/header.js:371-393 | without an indicator nothing changes; `--has-items` iff count > 0; the first count element is set or created, or removed |
| Header.IndicatorShowsCount | assets/header.js:377-393 | a positive count leaves exactly one count element reading back as the count; otherwise none |
| Header.CardConfig | assets/header.js:204-216 | `small` gives (4.7, 15), `large` gives (2.4, 10), and anything else gives (2.7, 15) |
| Header.InitSwipers | assets/header.js:176-218 | no-op once swipers exist or with no elements; else one configuration per element in order |
| Header.InitSwipersOnce | assets/header.js:177 | a second call never builds a second set |
| SubscriptionToggle.InitializeToggles | assets/cart-drawer.js:1256-1259 | binds the two document listeners only the first time |
| SubscriptionToggle.ListenersBoundOnce | assets/cart-drawer.js:1251-1259 | any number of calls from construction leaves exactly two listeners |
| SubscriptionToggle.ClickTooltips | assets/cart-drawer.js:1262-1303 | an icon click flips its own tooltip; a click inside a tooltip keeps all; any other click closes all |
| SubscriptionToggle.IconTwiceRestores | assets/cart-drawer.js:1273 | two clicks on the same icon restore the tooltips |
| SubscriptionToggle.Reinitialize | assets/cart-drawer.js:1306-1312 | every tooltip ends closed |
| SubscriptionToggle.RequestedSections | assets/cart-drawer.js:1322-1328 | the request names the drawer's section key and the bubble |
| SubscriptionToggle.WritePart | assets/cart-drawer.js:1393-1407 | a part is written only when its element has it, the reply has markup for it and the extracted markup is non-empty; in every other case the page is unchanged |
| SubscriptionToggle.SubscriptionSections | assets/cart-drawer.js:1390-1413 | only the drawer's and the bubble's parts can change; a reply without `sections` throws when a lookup reaches it |
| SubscriptionToggle.UpdateSectionsAsWritten | assets/cart-drawer.js:1395 | as written, a reply without the `'cart-drawer'` key changes nothing but the bubble |
| SubscriptionToggle.UpdateSections | assets/cart-drawer.js:1390-1413 | the corrected read: only the drawer and the bubble can change, and it throws exactly when `sections` is missing and a lookup reaches it |
| SubscriptionToggle.Restore | assets/cart-drawer.js:1372-1386 | failure restores and re-enables the button and shows the failure message |
| SubscriptionToggle.ToggleSubscription | assets/cart-drawer.js:1314-1388 | as written: the request carries `parseInt(line)`, the plan and the sections; a rejection, a non-ok status or a throw from `updateSections` restores the button and shows the failure message, changing nothing else; otherwise the `'cart-drawer'` read is applied and the button stays busy |
| SubscriptionToggle.ToggleSubscriptionFixed | assets/cart-drawer.js:1314-1388 | the same toggle with the drawer's markup read under the requested key: the same restore on a rejection, a non-ok status or a throw from `updateSections`, else the corrected read applied and the button left busy |
| SubscriptionToggle.AsWrittenKeepsDrawer | assets/cart-drawer.js:1353 | as written, a successful toggle whose reply lacks a `'cart-drawer'` entry leaves `#CartDrawer` as it was and the button busy |
| SubscriptionToggle.ToggleRepaintsDrawer | assets/cart-drawer.js:1322-1328 | with the corrected read, a successful toggle whose reply carries the drawer's markup under the requested key writes it into `.drawer__inner` |
| SubscriptionToggle.AsWrittenMissesDrawer | assets/cart-drawer.js:1395 | a drawer whose key is `x` is asked for under `x`; as written the toggle leaves the page unchanged and the button stuck on "Updating..." |
| SubscriptionToggle.FixedRepaintsSample | assets/cart-drawer.js:1322-1328 | on the same drawer and reply, the corrected toggle writes the new markup |
| FragranceFilter.OpenModal | assets/fragrance-filter.js:55-60 | opens only when the modal exists and changes nothing else |
| FragranceFilter.CloseModal | assets/fragrance-filter.js:62-67 | closes only when the modal exists and changes nothing else |
| FragranceFilter.Prepare | assets/fragrance-filter.js:125-131 | each card's fragrances are its trimmed swatch labels, in order |
| FragranceFilter.MarkItems | assets/fragrance-filter.js:135-148 | an item is `active` iff its trimmed label is in the set; unlabelled items are untouched |
| FragranceFilter.ApplyToCard | assets/fragrance-filter.js:150-172 | a card in an `li` is shown iff the set is empty or a fragrance is in it; a card outside an `li` is untouched |
| FragranceFilter.ApplyFilters | assets/fragrance-filter.js:133-173 | every card is updated against the same set; the swatches and the set are unchanged |
| FragranceFilter.ApplyFiltersIdempotent | assets/fragrance-filter.js:133-173 | applying the filters twice equals applying them once |
| FragranceFilter.Title | assets/fragrance-filter.js:111-112 | the trimmed label, absent when missing or empty |
| FragranceFilter.ToggleFilter | assets/fragrance-filter.js:110-123 | without a title nothing changes; otherwise the title leaves or joins the set, only that swatch's class follows, every input card is re-filtered against the new set, and the modal is untouched |
| FragranceFilter.ToggleTwiceRestores | assets/fragrance-filter.js:114-120 | toggling twice restores the set, and the swatches when the class was in step |
| FragranceFilter.HandleSwatchClick | assets/fragrance-filter.js:69-78 | a `data-open-modal="true"` swatch opens the modal and keeps the set; any other toggles |
| FragranceFilter.ActivateMatching | assets/fragrance-filter.js:94-101 | exactly the swatches whose trimmed label equals the name become active |
| FragranceFilter.CheckURLParams | assets/fragrance-filter.js:80-108 | the modal opens on `true` or `open` when it exists; the name joins the set iff a label matches and exactly the matching swatches turn active; when the set is then non-empty every input card is re-filtered against it, otherwise the cards are untouched |
| FragranceFilter.Init | assets/fragrance-filter.js:11-30 | nothing at all without swatches or cards; otherwise the cards are prepared and the URL applied |
| FragranceFilter.UrlFilterShowsMatches | assets/fragrance-filter.js:90-107 | after a `filter` URL, a card in an `li` is shown iff one of its labels is the name, provided some swatch has it |
| LineBreaks.Break | assets/nue-collapsible-content.js:18 | markup without `FRAGRANCE` is left as it is |
| LineBreaks.BreakLeavesMark | assets/nue-collapsible-content.js:18 | the global rewrite either changes nothing or leaves a `FRAGRANCE<br>` |
| LineBreaks.Join | assets/nue-collapsible-content.js:22 | markup without `FRAGRANCE<br>` is left as it is |
| LineBreaks.JoinLeavesNoBreak | assets/nue-collapsible-content.js:22 | after the mobile rewrite no `FRAGRANCE<br>` remains |
| LineBreaks.JoinUndoesBreak | assets/nue-collapsible-content.js:18-22 | for single-spaced markup without a break, the mobile rewrite inverts the desktop one |
| LineBreaks.Desktop | assets/nue-collapsible-content.js:16-19 | the desktop branch is skipped when a break is present and otherwise leaves one if it changes anything |
| LineBreaks.HandleTitle | assets/nue-collapsible-content.js:3-24 | titles without the heading are untouched; desktop means width >= 750; the mobile branch leaves no break |
| LineBreaks.HandleTitles | assets/nue-collapsible-content.js:8-25 | every title is handled independently; those without the heading are unchanged |
| LineBreaks.DesktopIdempotent | assets/nue-collapsible-content.js:17 | re-running within the desktop range changes nothing |
| LineBreaks.Gate | assets/nue-collapsible-content.js:11-14 | the title's text, tags dropped and trimmed, includes `FRAGRANCE Ingredients` |
| LineBreaks.AsWrittenKeepsBreak | assets/nue-collapsible-content.js:11-22 | `FRAGRANCE Ingredients…` broken on desktop keeps its break after narrowing, because the gate no longer matches |
| LineBreaks.HandleTitleFixed | assets/nue-collapsible-content.js:11-23 | with the gate also read through the mobile rewrite, every originally gated title is still gated and mobile leaves no break |
| LineBreaks.FixedRoundTrip | assets/nue-collapsible-content.js:20-22 | with the corrected gate, widening then narrowing restores the original markup |

## Left out

- Network transport: `fetch`, the `/cart.js` re-fetch in `renderContents`, and Yotpo. Replies are inputs; the count in `Drawer.UpdateCartCount` is a parameter.
- HTML parsing and selector matching: `Extractor` is a parameter. Selector queries the model cannot answer on markup strings (`Probe`) are parameters too.
- Containment: each handle (`#CartDrawer`, `.drawer__inner`, `cart-drawer`, ...) is an independent element. A write to `#CartDrawer` does not detach or replace the `Query(".drawer__inner")` element, and the `.drawer__inner` part of `#CartDrawer` is tracked apart from it.
- Drawer.RenderStart: `is-empty` is removed from the `.drawer__inner` the drawer queried; when the rewrite of `#CartDrawer` then replaces that node, the live `.drawer__inner` comes from the reply's markup, which the model does not relate to it.
- Timers, `transitionend` and `requestAnimationFrame`: each timed callback is a separate step function the caller runs in order. The 3 s error-clearing timers, the 100 ms textarea focus, the 250 ms resize debounce and the 500 ms Swiper retry are not modelled.
- The Swiper options in `initRecommendationsSwiper`, and `nue-product-slider.js` and `nue-product-tabs-swiper.js`: wrappers over a library outside the repository.
- `accordion-animation.js` and `custom-rating-display.js`: pixel measurement, timed transitions, network fetches and float formatting.
- `trapFocus`, `removeTrapFocus`, analytics `trigger`, `CartPerformance` and `publish`: foreign calls, recorded as effects where `updateQuantity` makes them, otherwise dropped.
- `setHeaderCartIconAccessibility`, `setSummaryAccessibility`, the mega menu's open/close/drag handling, the `setInterval` cart sync, the MutationObserver, the `ajaxComplete` hook and the patched `window.fetch`: event plumbing with no decision beyond what is modelled.
- Concurrency between overlapping requests: every run is sequential.
- Js.IsSpace: the `\s` class is the fixed set of characters ECMAScript lists; no Unicode database is consulted.
- Js.ReplaceAll: only a literal pattern is modelled; `FRAGRANCE(\s+)` is modelled directly by `LineBreaks.Break`.
- Js.StripTags: `textContent` is read as the markup with tags removed; entities are not decoded.
- Header.CardConfig: only `slidesPerView` and `spaceBetween` are modelled, not the rest of the Swiper configuration.
- Drawer.SwiperFires: the normal paths of the callback are not told apart, since each one clears the flag; which calls into Swiper throw is a parameter.

## Findings

| source | as written | input that shows it | evidently intended | confidence | as-written member | corrected member |
|---|---|---|---|---|---|---|
| assets/cart-drawer.js:1395 | `updateSections` reads the drawer's markup under the fixed key `'cart-drawer'`, while the request (lines 1322-1328) asks for the drawer's `data-id` | a drawer with `data-id="x"`: the reply carries its markup under `x`, so the drawer is not repainted and the toggle button stays disabled with "Updating..." | read the markup under the key that was requested | high (not executed) | SubscriptionToggle.AsWrittenMissesDrawer | SubscriptionToggle.ToggleRepaintsDrawer |
| assets/nue-collapsible-content.js:11-22 | the gate reads `textContent`, but on desktop the rewrite puts `<br>` between the words, so the text becomes "FRAGRANCEIngredients" | the title "FRAGRANCE Ingredients": widen the window, then narrow it, and the break stays | the mobile branch removes the break it was written to remove | high (not executed) | LineBreaks.AsWrittenKeepsBreak | LineBreaks.FixedRoundTrip |
| assets/cart-drawer.js:110-200 | the callback clears `swiperInitializing` at the end of each normal path, with no `try`/`finally` around `swiper.destroy` and `new Swiper` | any exception from `destroy` or from the `Swiper` constructor: the flag stays set and nothing is scheduled, so every later `initRecommendationsSwiper` returns at once for the rest of the page | clear the flag in a `finally` so a failed attempt can be retried | medium (not executed) | Drawer.ThrowWedgesSwiper | Drawer.FixedNeverWedges |
