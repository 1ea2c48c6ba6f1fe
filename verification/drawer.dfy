/** The `<cart-drawer>` element: the gift-note toggle and its single bound
    handler, the re-entrancy flags around the recommendations swiper,
    `open`/`close`, `renderContents` after an add to cart, and
    `updateCartCount`. Timers are collapsed into named steps the caller
    runs in order. */
module Drawer {
  import opened Js
  import opened Dom
  import opened Cart
  import opened Sections

  // ---------------------------------------------------------------------
  // Gift note: the handler binding

  /** `this.giftNoteHandler` (the id of the closure stored, if any), the
      closures bound as click listeners on the current `.gift-note-toggle`,
      and the id the next closure gets. */
  datatype Binding = Binding(stored: Option<nat>, bound: set<nat>, next: nat)

  /** Every bound closure is the stored one, and ids are never reused. */
  predicate BindingInv(b: Binding) {
    (forall h :: h in b.bound ==> b.stored == Some(h))
    && (b.stored.Some? ==> b.stored.value < b.next)
  }

  /** `initGiftNoteToggle()`: with both the toggle and the section present,
      the stored closure is removed from the toggle and a fresh one is
      stored and bound; otherwise nothing happens. */
  function InitGiftNote(b: Binding, present: bool): (r: Binding)
    ensures present ==> r.bound == (b.bound - (if b.stored.Some? then {b.stored.value} else {})) + {b.next}
    ensures present ==> r.stored == Some(b.next) && r.next == b.next + 1
    ensures !present ==> r == b
  {
    if present then
      var remaining := if b.stored.Some? then b.bound - {b.stored.value} else b.bound;
      Binding(Some(b.next), remaining + {b.next}, b.next + 1)
    else b
  }

  /** Fresh drawer markup brings a fresh toggle element with no listener;
      the stored closure stays in `giftNoteHandler`. */
  function NewMarkup(b: Binding): (r: Binding)
    ensures r.bound == {} && r.stored == b.stored && r.next == b.next
  {
    b.(bound := {})
  }

  lemma BindingInvKept(b: Binding, present: bool)
    requires BindingInv(b)
    ensures BindingInv(InitGiftNote(b, present)) && BindingInv(NewMarkup(b))
  {
  }

  /** However often `initGiftNoteToggle` runs, at most one handler is bound,
      and exactly one after a call that found the toggle. */
  lemma {:induction false} AtMostOneHandler(b: Binding, present: bool)
    requires BindingInv(b)
    ensures |b.bound| <= 1
    ensures present ==> |InitGiftNote(b, present).bound| == 1
  {
    if b.bound != {} {
      var h :| h in b.bound;
      assert b.bound == {h} by {
        forall g | g in b.bound ensures g == h {
        }
      }
    }
    if present {
      var r := InitGiftNote(b, present);
      assert b.bound <= (if b.stored.Some? then {b.stored.value} else {});
      assert r.bound == {b.next};
    }
  }

  // ---------------------------------------------------------------------
  // Gift note: the click

  /** The toggle's `aria-expanded` attribute, the section's `hidden`
      attribute, and the text of the toggle's `span` (`None` without one). */
  datatype Note = Note(expanded: Option<string>, hidden: bool, text: Option<string>)

  const AddGiftNote := "Add Gift Note"
  const CloseText := "Close"

  /** One run of the click handler. Expanded means `aria-expanded` is the
      string `'true'`. A missing `span` throws after the attributes are set,
      leaving the text alone. */
  function ClickNote(n: Note): (r: Note)
    ensures n.expanded == Some("true") ==> r.expanded == Some("false") && r.hidden
    ensures n.expanded != Some("true") ==> r.expanded == Some("true") && !r.hidden
    ensures r.text.Some? <==> n.text.Some?
    ensures r.text.Some? ==> r.text == Some(if r.hidden then AddGiftNote else CloseText)
  {
    var open := n.expanded == Some("true");
    Note(Some(if open then "false" else "true"), open,
         if n.text.Some? then Some(if open then AddGiftNote else CloseText) else None)
  }

  /** The toggle's three pieces of state agree: expanded exactly when the
      section is shown, with the matching text. */
  predicate Paired(n: Note) {
    && (n.expanded == Some("true") || n.expanded == Some("false"))
    && (n.expanded == Some("true") <==> !n.hidden)
    && (n.text.Some? ==> n.text == Some(if n.hidden then AddGiftNote else CloseText))
  }

  /** Every click leaves the state paired, and two clicks from a paired
      state restore it. */
  lemma ClickPairs(n: Note)
    ensures Paired(ClickNote(n))
    ensures Paired(n) ==> ClickNote(ClickNote(n)) == n
  {
  }

  /** A click runs every bound handler in turn. */
  function Dispatch(n: Note, handlers: nat): Note
    decreases handlers
  {
    if handlers == 0 then n else Dispatch(ClickNote(n), handlers - 1)
  }

  /** With the one handler `initGiftNoteToggle` leaves bound, a click flips
      the note; two stacked handlers would cancel each other out. */
  lemma {:induction false} ClickAfterInit(b: Binding, n: Note)
    requires BindingInv(b) && Paired(n)
    ensures Dispatch(n, |InitGiftNote(b, true).bound|) == ClickNote(n)
    ensures Dispatch(n, 2) == n
  {
    AtMostOneHandler(b, true);
    ClickPairs(n);
  }

  // ---------------------------------------------------------------------
  // Recommendations swiper: the re-entrancy guard

  /** `swiperInitializing`, and how many of the 300 ms initialisation
      callbacks are scheduled. */
  datatype Guard = Guard(initializing: bool, pending: nat)

  predicate GuardInv(g: Guard) {
    (g.initializing <==> g.pending == 1) && g.pending <= 1
  }

  /** `initRecommendationsSwiper()`: a call while a callback is pending
      does nothing. */
  function InitSwiper(g: Guard): (r: Guard)
    ensures g.initializing ==> r == g
    ensures !g.initializing ==> r.initializing && r.pending == g.pending + 1
  {
    if g.initializing then g else Guard(true, g.pending + 1)
  }

  /** The scheduled callback. Every path that returns normally (Swiper not
      loaded yet, no swiper element, no slides, or a new instance built)
      clears the flag; the 500 ms retry when Swiper is not loaded yet is a
      later call of `InitSwiper`. The callback has no `try`/`finally`: when
      `swiper.destroy` or `new Swiper` throws (`throws`), the reset is
      skipped and the flag keeps its value. */
  function SwiperFires(g: Guard, throws: bool): (r: Guard)
    requires g.pending > 0
    ensures r.pending == g.pending - 1
    ensures !throws ==> !r.initializing
    ensures throws ==> r.initializing == g.initializing
  {
    Guard(if throws then g.initializing else false, g.pending - 1)
  }

  /** The flag tracks the pending callback exactly, so initialisations never
      overlap, and a second call before the callback is a no-op, as long as
      no callback throws. */
  lemma GuardInvKept(g: Guard)
    requires GuardInv(g)
    ensures GuardInv(InitSwiper(g))
    ensures g.pending > 0 ==> GuardInv(SwiperFires(g, false))
    ensures InitSwiper(InitSwiper(g)) == InitSwiper(g)
  {
  }

  /** `n` calls of `initRecommendationsSwiper()`. */
  function InitSwiperTimes(g: Guard, n: nat): Guard
    decreases n
  {
    if n == 0 then g else InitSwiperTimes(InitSwiper(g), n - 1)
  }

  /** A callback that throws leaves the flag set with nothing scheduled to
      clear it: every later `initRecommendationsSwiper()` returns at once,
      so the swiper is never initialised again on this page. */
  lemma {:induction false} ThrowWedgesSwiper(g: Guard, n: nat)
    requires GuardInv(g) && g.pending > 0
    ensures var w := SwiperFires(g, true);
            && w.initializing && w.pending == 0
            && InitSwiperTimes(w, n) == w
    decreases n
  {
    var w := SwiperFires(g, true);
    if n > 0 {
      assert InitSwiper(w) == w;
      StaysWedged(w, n - 1);
    }
  }

  lemma {:induction false} StaysWedged(w: Guard, n: nat)
    requires w.initializing
    ensures InitSwiperTimes(w, n) == w
    decreases n
  {
    if n > 0 {
      StaysWedged(InitSwiper(w), n - 1);
    }
  }

  /** The callback as evidently intended: the reset of `swiperInitializing`
      sits in a `finally`, so a throw from Swiper clears the flag too. */
  function SwiperFiresFixed(g: Guard, throws: bool): (r: Guard)
    requires g.pending > 0
    ensures r.pending == g.pending - 1 && !r.initializing
    ensures r == SwiperFires(g, false)
  {
    Guard(false, g.pending - 1)
  }

  /** With the reset in a `finally`, the guard's invariant survives a throw,
      and the next `initRecommendationsSwiper()` schedules a fresh callback,
      whatever any number of later calls do. */
  lemma {:induction false} FixedNeverWedges(g: Guard, throws: bool, n: nat)
    requires GuardInv(g) && g.pending > 0
    ensures GuardInv(SwiperFiresFixed(g, throws))
    ensures n > 0 ==> InitSwiperTimes(SwiperFiresFixed(g, throws), n) == Guard(true, 1)
  {
    var w := SwiperFiresFixed(g, throws);
    if n > 0 {
      assert InitSwiper(w) == Guard(true, 1);
      StaysWedged(InitSwiper(w), n - 1);
    }
  }

  // ---------------------------------------------------------------------
  // open, close, renderContents

  /** The drawer's `active` class, `overflow-hidden` on the body, whether a
      `renderContents` is in progress, how many overlay click listeners
      call `close`, whether a `transitionend` listener from `open` waits,
      the gift-note binding and the swiper guard. */
  datatype State = State(
    active: bool,
    bodyLocked: bool,
    rendering: bool,
    overlayListeners: nat,
    transitionPending: bool,
    binding: Binding,
    guard: Guard)

  /** `open()`: gift note re-initialised, `active` added (after a timer),
      the body locked, and a one-shot `transitionend` listener added. */
  function Open(s: State, giftNotePresent: bool): (r: State)
    ensures r.active && r.bodyLocked && r.transitionPending
    ensures r.binding == InitGiftNote(s.binding, giftNotePresent)
    ensures r.rendering == s.rendering && r.overlayListeners == s.overlayListeners && r.guard == s.guard
  {
    s.(active := true, bodyLocked := true, transitionPending := true, binding := InitGiftNote(s.binding, giftNotePresent))
  }

  /** `close()`. */
  function Close(s: State): (r: State)
    ensures !r.active && !r.bodyLocked
    ensures r.(active := s.active, bodyLocked := s.bodyLocked) == s
  {
    s.(active := false, bodyLocked := false)
  }

  /** The drawer's `transitionend` after `open`: the swiper is initialised
      unless a `renderContents` is in progress, which does it itself. */
  function TransitionEnd(s: State): (r: State)
    ensures !r.transitionPending
    ensures s.transitionPending && !s.rendering ==> r.guard == InitSwiper(s.guard)
    ensures !s.transitionPending || s.rendering ==> r.guard == s.guard
  {
    if s.transitionPending then
      s.(transitionPending := false, guard := if s.rendering then s.guard else InitSwiper(s.guard))
    else s
  }

  /** A click on the overlay runs each of its `close` listeners. */
  function OverlayClick(s: State, listeners: nat): State
    decreases listeners
  {
    if listeners == 0 then s else OverlayClick(Close(s), listeners - 1)
  }

  /** `close` is idempotent, so the overlay listeners `renderContents`
      keeps adding change nothing about a click beyond the first one. */
  lemma {:induction false} StackedCloseHarmless(s: State, listeners: nat)
    requires listeners > 0
    ensures OverlayClick(s, listeners) == Close(s)
    decreases listeners
  {
    if listeners > 1 {
      StackedCloseHarmless(Close(s), listeners - 1);
      assert Close(Close(s)) == Close(s);
    }
  }

  /** The sections `renderContents` writes: the whole `#CartDrawer` from the
      reply's `'cart-drawer'` markup inside `#CartDrawer`, and the whole
      `#cart-icon-bubble` from the reply's `'cart-icon-bubble'` markup
      inside `.shopify-section`. */
  datatype RenderSection = RenderSection(key: string, target: Handle, selector: string)

  function RenderSections(): (r: seq<RenderSection>)
    ensures |r| == 2
    ensures r[0].target == ById(DrawerId) && r[0].key == DefaultSectionId
    ensures r[1].target == ById(BubbleId) && r[1].key == BubbleId && r[1].selector == ".shopify-section"
  {
    [RenderSection(DefaultSectionId, ById(DrawerId), "#CartDrawer"),
     RenderSection(BubbleId, ById(BubbleId), ".shopify-section")]
  }

  const DrawerInner := Query(".drawer__inner")

  /** The synchronous part of `renderContents(parsedState)`: the flag set,
      `is-empty` removed from the `.drawer__inner` the drawer queries, and
      each section's element that exists given the extracted markup (`''`
      when the reply lacks it). The third component says whether it returns
      normally and schedules its timers. A missing `.drawer__inner` throws
      before anything changes; a reply without `sections` throws at the
      first section whose element exists, before writing it. After a throw
      no timer is scheduled and the flag is never cleared. */
  function RenderStart(extract: Extractor, s: State, page: Page, sections: Option<map<string, string>>): (r: (State, Page, bool))
    ensures r.0 == s.(rendering := true)
    ensures r.1.Keys == page.Keys
    ensures r.2 <==> DrawerInner in page && (sections.Some? || forall i :: 0 <= i < 2 ==> RenderSections()[i].target !in page)
    ensures DrawerInner !in page ==> r.1 == page
    ensures DrawerInner in page ==> "is-empty" !in r.1[DrawerInner].classes && r.1[DrawerInner].inner == page[DrawerInner].inner
    ensures DrawerInner in page && sections.Some? ==> forall i :: 0 <= i < 2 && RenderSections()[i].target in page ==>
              r.1[RenderSections()[i].target].inner == RenderMarkup(extract, RenderSections()[i], sections.value)
    ensures sections.None? ==> forall h :: h in page && h != DrawerInner ==> r.1[h] == page[h]
    ensures forall h :: h in page && h != DrawerInner && h != ById(DrawerId) && h != ById(BubbleId) ==> r.1[h] == page[h]
  {
    var flagged := s.(rendering := true);
    if DrawerInner !in page then (flagged, page, false)
    else
      var p0 := SetClassOn(page, DrawerInner, "is-empty", false);
      var secs := RenderSections();
      if sections.None? then (flagged, p0, secs[0].target !in page && secs[1].target !in page)
      else
        var p1 := SetTextOn(p0, secs[0].target, RenderMarkup(extract, secs[0], sections.value));
        var p2 := SetTextOn(p1, secs[1].target, RenderMarkup(extract, secs[1], sections.value));
        (flagged, p2, true)
  }

  /** `getSectionInnerHTML(parsedState.sections[id], selector)`. */
  function RenderMarkup(extract: Extractor, sec: RenderSection, sections: map<string, string>): string {
    SectionInnerHTML(extract, if sec.key in sections then sections[sec.key] else "", sec.selector)
  }

  /** The 50 ms timer: another overlay listener, the gift note, `open()`. */
  function RenderOpen(s: State, giftNotePresent: bool): (r: State)
    ensures r.overlayListeners == s.overlayListeners + 1
    ensures r.active && r.bodyLocked && r.transitionPending && r.rendering == s.rendering
  {
    Open(s.(overlayListeners := s.overlayListeners + 1, binding := InitGiftNote(s.binding, giftNotePresent)), giftNotePresent)
  }

  /** The 550 ms timer: the swiper initialised and the flag cleared. */
  function RenderDone(s: State): (r: State)
    ensures !r.rendering && r.guard == InitSwiper(s.guard)
  {
    s.(rendering := false, guard := InitSwiper(s.guard))
  }

  /** A `renderContents` whose drawer opens and finishes its transition
      before the last timer initialises the swiper exactly once: the
      `transitionend` of its own `open` is skipped. */
  lemma RenderInitialisesSwiperOnce(extract: Extractor, s: State, page: Page, sections: map<string, string>, giftNotePresent: bool)
    requires DrawerInner in page && !s.guard.initializing
    ensures var started := RenderStart(extract, s, page, Some(sections));
            var r := RenderDone(TransitionEnd(RenderOpen(started.0, giftNotePresent)));
            && started.2
            && r.guard == Guard(true, s.guard.pending + 1)
            && !r.rendering && r.active && r.overlayListeners == s.overlayListeners + 1
  {
  }

  // ---------------------------------------------------------------------
  // updateCartCount

  /** `count || '0'` for the item count of `/cart.js`. */
  function CountText(count: Option<nat>): (r: string)
    ensures |r| > 0 && AllDigits(r)
  {
    if count.Some? && count.value != 0 then NatToString(count.value) else "0"
  }

  /** The text shown reads back as the count, 0 when it was missing. */
  lemma CountTextReadsBack(count: Option<nat>)
    ensures ParseInt(CountText(count)) == Some(count.GetOr(0))
  {
    if count.Some? && count.value != 0 {
      ParseIntOfNatToString(count.value);
    } else {
      ParseIntOfNatToString(0);
    }
  }

  /** The index of the first lookup that finds an element. */
  function FirstFound(page: Page, lookups: seq<Handle>): (r: Option<nat>)
    ensures r.Some? ==> r.value < |lookups| && lookups[r.value] in page
    ensures r.Some? ==> forall j :: 0 <= j < r.value ==> lookups[j] !in page
    ensures r.None? ==> forall j :: 0 <= j < |lookups| ==> lookups[j] !in page
    decreases |lookups|
  {
    if |lookups| == 0 then None
    else if lookups[0] in page then Some(0)
    else
      match FirstFound(page, lookups[1..])
      case None => None
      case Some(i) => Some(i + 1)
  }

  /** `updateCartCount(count)`: the first of the lookups (inside the drawer,
      document-wide `.cart-drawer__item-count`, inside `#CartDrawer`) that
      finds a `[data-cart-count]` element gets the text; nothing changes
      when none does. */
  function UpdateCartCount(page: Page, lookups: seq<Handle>, count: Option<nat>): (r: Page)
    ensures r.Keys == page.Keys
    ensures FirstFound(page, lookups).Some? ==>
              var h := lookups[FirstFound(page, lookups).value];
              r[h].inner == CountText(count) && forall k :: k in page && k != h ==> r[k] == page[k]
    ensures FirstFound(page, lookups).None? ==> r == page
  {
    match FirstFound(page, lookups)
    case None => page
    case Some(i) => SetTextOn(page, lookups[i], CountText(count))
  }
}
