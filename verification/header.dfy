/** The storefront header: the sticky header's scroll state machine, the
    cart-count indicator kept in step with the theme's cart bubble, and the
    mega menu's one-time swiper set-up. */
module Header {
  import opened Js

  // ---------------------------------------------------------------------
  // StickyHeader

  /** Scroll positions are reals: `window.pageYOffset` is fractional on
      zoomed or high-density displays. */
  const ScrollThreshold: real := 5.0
  const ArtThreshold: real := 10.0

  const Scrolled := "cm-header--scrolled"
  const Hidden := "cm-header--hidden"
  const Visible := "cm-header--visible"
  const StickyClass := "cm-header--sticky"

  /** `lastScrollTop`, `isVisible`, the header's classes, and the
      `cm-art-text-homepage--hidden` class of the homepage art text
      (`None` when the page has none). */
  datatype Sticky = Sticky(lastScrollTop: real, isVisible: bool, classes: set<string>, artHidden: Option<bool>)

  /** The header's classes agree with `isVisible`, and `lastScrollTop` is
      never negative. */
  predicate Inv(s: Sticky) {
    && (Hidden in s.classes <==> !s.isVisible)
    && (Visible in s.classes ==> s.isVisible)
    && s.lastScrollTop >= 0.0
  }

  /** The constructor's state: visible, at the top, sticky. */
  function Initial(hasArt: bool): (r: Sticky)
    ensures Inv(r)
  {
    Sticky(0.0, true, {StickyClass}, if hasArt then Some(false) else None)
  }

  /** `showHeader()`. */
  function ShowHeader(s: Sticky): (r: Sticky)
    ensures r.isVisible
    ensures Inv(s) ==> Inv(r)
    ensures r.lastScrollTop == s.lastScrollTop && r.artHidden == s.artHidden
  {
    if !s.isVisible then s.(classes := s.classes - {Hidden} + {Visible}, isVisible := true) else s
  }

  /** `hideHeader()`: also re-applied when already hidden while the last
      position is at the top. */
  function HideHeader(s: Sticky): (r: Sticky)
    ensures !r.isVisible
    ensures Inv(s) ==> Inv(r)
    ensures r.lastScrollTop == s.lastScrollTop && r.artHidden == s.artHidden
  {
    if s.isVisible || s.lastScrollTop <= ScrollThreshold then
      s.(classes := s.classes - {Visible} + {Hidden}, isVisible := false)
    else s
  }

  /** The second half of `hideHeader`'s condition never matters: with the
      classes in step with `isVisible`, re-hiding a hidden header changes
      nothing. */
  lemma HideRecheckRedundant(s: Sticky)
    requires Inv(s) && !s.isVisible
    ensures HideHeader(s) == s
  {
    assert s.classes - {Visible} + {Hidden} == s.classes;
  }

  /** `handleScroll()` at position `scrollTop`. */
  function HandleScroll(s: Sticky, scrollTop: real): (r: Sticky)
    ensures Scrolled in r.classes <==> scrollTop > ScrollThreshold
    ensures s.artHidden.Some? <==> r.artHidden.Some?
    ensures r.artHidden.Some? ==> r.artHidden.value == (scrollTop > ArtThreshold)
    ensures r.lastScrollTop == if scrollTop <= 0.0 then 0.0 else scrollTop
    ensures Inv(s) ==> Inv(r)
  {
    var classes := if scrollTop > ScrollThreshold then s.classes + {Scrolled} else s.classes - {Scrolled};
    var art := if s.artHidden.Some? then Some(scrollTop > ArtThreshold) else None;
    var t := s.(classes := classes, artHidden := art);
    assert Inv(s) ==> Inv(t);
    var u :=
      if scrollTop <= ScrollThreshold then ShowHeader(t)
      else if scrollTop < s.lastScrollTop then ShowHeader(t)
      else if scrollTop > s.lastScrollTop then HideHeader(t)
      else t;
    assert (Scrolled in u.classes) == (Scrolled in classes);
    u.(lastScrollTop := if scrollTop <= 0.0 then 0.0 else scrollTop)
  }

  /** The visibility rule: at or below the threshold the header shows;
      above it, scrolling up shows it, scrolling down hides it, and no
      movement leaves it as it was. */
  lemma VisibilityRule(s: Sticky, scrollTop: real)
    ensures var r := HandleScroll(s, scrollTop);
            && (scrollTop <= ScrollThreshold ==> r.isVisible)
            && (scrollTop > ScrollThreshold && scrollTop < s.lastScrollTop ==> r.isVisible)
            && (scrollTop > ScrollThreshold && scrollTop > s.lastScrollTop ==> !r.isVisible)
            && (scrollTop > ScrollThreshold && scrollTop == s.lastScrollTop ==> r.isVisible == s.isVisible)
  {
  }

  /** A run of scroll events from the initial state. */
  function ScrollRun(s: Sticky, positions: seq<real>): Sticky
    decreases |positions|
  {
    if |positions| == 0 then s else ScrollRun(HandleScroll(s, positions[0]), positions[1..])
  }

  /** Along any run of scroll events, the hidden class marks exactly an
      invisible header and the last position stays non-negative. */
  lemma {:induction false} ScrollRunKeepsInv(s: Sticky, positions: seq<real>)
    requires Inv(s)
    ensures Inv(ScrollRun(s, positions))
    decreases |positions|
  {
    if |positions| > 0 {
      ScrollRunKeepsInv(HandleScroll(s, positions[0]), positions[1..]);
    }
  }

  // ---------------------------------------------------------------------
  // CartCountSync.syncCartCount

  /** `parseInt(text) || 0`: `NaN` and 0 both give 0. */
  function ParseOrZero(text: string): int {
    match ParseInt(text)
    case None => 0
    case Some(n) => n
  }

  /** `el && el.textContent ? parseInt(el.textContent) || 0 : 0` for an
      element that may be missing. */
  function TextCount(text: Option<string>): int {
    if text.Some? && Truthy(text.value) then ParseOrZero(text.value) else 0
  }

  /** The count `syncCartCount` settles on: the bubble's text when the
      bubble exists, the first `[data-cart-count]`'s text only when the
      bubble does not, and `window.cart.item_count` only when the count is
      still 0. A missing element, empty text, and text that does not parse
      all contribute 0. */
  function ResolveCount(bubble: Option<string>, drawerCount: Option<string>, windowCart: Option<int>): (r: int)
    ensures var p := if bubble.Some? then TextCount(bubble) else TextCount(drawerCount);
            && (p != 0 ==> r == p)
            && (p == 0 && windowCart.Some? ==> r == windowCart.value)
            && (p == 0 && windowCart.None? ==> r == 0)
  {
    var fromBubble := if bubble.Some? && Truthy(bubble.value) then ParseOrZero(bubble.value) else 0;
    var fromDrawer :=
      if bubble.None? && drawerCount.Some? && Truthy(drawerCount.value) then ParseOrZero(drawerCount.value) else fromBubble;
    if fromDrawer == 0 && windowCart.Some? then windowCart.value else fromDrawer
  }

  /** The drawer's count is read only when the bubble is missing. */
  lemma DrawerCountOnlyWithoutBubble(b: string, d1: Option<string>, d2: Option<string>, w: Option<int>)
    ensures ResolveCount(Some(b), d1, w) == ResolveCount(Some(b), d2, w)
  {
  }

  /** The header indicator: the `--has-items` class and the texts of the
      `.cm-header__cart-count` elements in document order. */
  datatype Indicator = Indicator(hasItems: bool, counts: seq<string>)

  /** The indicator update; without an indicator nothing changes. Only the
      first count element in the document is updated or removed. */
  function SyncIndicator(ind: Option<Indicator>, count: int): (r: Option<Indicator>)
    ensures ind.None? ==> r.None?
    ensures ind.Some? ==> r.Some? && (r.value.hasItems <==> count > 0)
    ensures ind.Some? && count > 0 ==>
              |r.value.counts| == (if |ind.value.counts| == 0 then 1 else |ind.value.counts|)
              && r.value.counts[0] == IntToString(count)
              && r.value.counts[1..] == (if |ind.value.counts| == 0 then [] else ind.value.counts[1..])
    ensures ind.Some? && count <= 0 ==>
              r.value.counts == (if |ind.value.counts| == 0 then [] else ind.value.counts[1..])
  {
    match ind
    case None => None
    case Some(i) =>
      if count > 0 then
        Some(Indicator(true, if |i.counts| == 0 then [IntToString(count)] else [IntToString(count)] + i.counts[1..]))
      else
        Some(Indicator(false, if |i.counts| == 0 then [] else i.counts[1..]))
  }

  /** With at most one count element to start with, the indicator ends
      with exactly one, showing the count, when the count is positive, and
      with none otherwise; the shown text reads back as the count. */
  lemma {:induction false} IndicatorShowsCount(i: Indicator, count: int)
    requires |i.counts| <= 1
    ensures var r := SyncIndicator(Some(i), count).value;
            && (count > 0 ==> r.hasItems && |r.counts| == 1 && ParseInt(r.counts[0]) == Some(count))
            && (count <= 0 ==> !r.hasItems && |r.counts| == 0)
  {
    if count > 0 {
      ParseIntOfNatToString(count);
    }
  }

  // ---------------------------------------------------------------------
  // MegaMenu.initSwipers

  /** The per-card-style part of a links swiper's configuration. */
  datatype Config = Config(slidesPerView: real, spaceBetween: int)

  /** `'small'` and `'large'` have their own settings; any other style, or
      no `.cm-links-section` (`'standard'`), takes the default. */
  function CardConfig(style: Option<string>): (r: Config)
    ensures style == Some("small") ==> r == Config(4.7, 15)
    ensures style == Some("large") ==> r == Config(2.4, 10)
    ensures style != Some("small") && style != Some("large") ==> r == Config(2.7, 15)
  {
    match style
    case Some(s) =>
      if s == "small" then Config(4.7, 15) else if s == "large" then Config(2.4, 10) else Config(2.7, 15)
    case None => Config(2.7, 15)
  }

  /** `initSwipers()` over the `.cm-links-swiper` elements, each given by
      its section's card style: nothing once any swiper exists or when
      there are no elements, else one swiper per element in order. */
  function InitSwipers(swipers: seq<Config>, styles: seq<Option<string>>): (r: seq<Config>)
    ensures |swipers| > 0 || |styles| == 0 ==> r == swipers
    ensures |swipers| == 0 && |styles| > 0 ==> |r| == |styles| && forall i :: 0 <= i < |styles| ==> r[i] == CardConfig(styles[i])
  {
    if |swipers| > 0 || |styles| == 0 then swipers
    else seq(|styles|, i requires 0 <= i < |styles| => CardConfig(styles[i]))
  }

  /** Once a call found swiper elements, opening the menu again never
      builds a second set of swipers. */
  lemma InitSwipersOnce(swipers: seq<Config>, styles: seq<Option<string>>, later: seq<Option<string>>)
    requires |styles| > 0
    ensures InitSwipers(InitSwipers(swipers, styles), later) == InitSwipers(swipers, styles)
  {
  }
}
