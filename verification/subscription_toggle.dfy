/** `CartSubscriptionToggle`: the document-level click handlers bound once,
    the info tooltips they open and close, and `toggleSubscription`, which
    switches a cart line between one-time purchase and a selling plan and
    repaints the drawer from the reply. */
module SubscriptionToggle {
  import opened Js
  import opened Dom
  import opened Cart
  import opened Sections

  // ---------------------------------------------------------------------
  // Binding and tooltips

  /** `initialized`, and how many document click listeners are bound. */
  datatype Binding = Binding(initialized: bool, listeners: nat)

  /** `initializeToggles()`: binds the two document listeners the first
      time only. */
  function InitializeToggles(b: Binding): (r: Binding)
    ensures r.initialized
    ensures b.initialized ==> r == b
    ensures !b.initialized ==> r.listeners == b.listeners + 2
  {
    if b.initialized then b else Binding(true, b.listeners + 2)
  }

  /** `n` calls of `initializeToggles()` in a row. */
  function InitializeTimes(b: Binding, n: nat): Binding
    decreases n
  {
    if n == 0 then b else InitializeTimes(InitializeToggles(b), n - 1)
  }

  /** From the constructor's state, any positive number of calls (one per
      successful toggle, plus the constructor's) leaves exactly the two
      listeners bound. */
  lemma {:induction false} ListenersBoundOnce(n: nat)
    requires n > 0
    ensures InitializeTimes(Binding(false, 0), n) == Binding(true, 2)
  {
    StableOnceInitialized(Binding(true, 2), n - 1);
  }

  lemma {:induction false} StableOnceInitialized(b: Binding, n: nat)
    requires b.initialized
    ensures InitializeTimes(b, n) == b
    decreases n
  {
    if n > 0 {
      StableOnceInitialized(InitializeToggles(b), n - 1);
    }
  }

  /** Where a document click lands: an info icon (with the index of the
      tooltip that follows its wrapper, if that sibling is one), inside a
      tooltip, on a toggle button, or anywhere else. */
  datatype Target = InfoIcon(tooltip: Option<nat>) | InTooltip | ToggleButton | Elsewhere

  /** The `active` class of each `.subscription-info-tooltip-cart`. */
  type Tooltips = seq<bool>

  function CloseAll(t: Tooltips): (r: Tooltips)
    ensures |r| == |t|
    ensures forall i :: 0 <= i < |r| ==> !r[i]
  {
    seq(|t|, i requires 0 <= i < |t| => false)
  }

  /** Both document listeners run on every click: the first flips the
      tooltip after a clicked info icon, the second closes every tooltip
      unless the click was on an icon or inside a tooltip. Nothing happens
      before the listeners are bound. */
  function ClickTooltips(b: Binding, t: Tooltips, target: Target): (r: Tooltips)
    ensures |r| == |t|
    ensures !b.initialized || target == InTooltip ==> r == t
    ensures b.initialized && (target == ToggleButton || target == Elsewhere) ==> forall i :: 0 <= i < |r| ==> !r[i]
    ensures b.initialized && target.InfoIcon? ==>
              forall i :: 0 <= i < |r| ==> r[i] == (if Some(i) == target.tooltip then !t[i] else t[i])
  {
    if !b.initialized then t
    else
      match target
      case InfoIcon(k) => if k.Some? && k.value < |t| then t[k.value := !t[k.value]] else t
      case InTooltip => t
      case _ => CloseAll(t)
  }

  /** Two clicks on the same info icon restore the tooltips. */
  lemma IconTwiceRestores(b: Binding, t: Tooltips, k: Option<nat>)
    ensures ClickTooltips(b, ClickTooltips(b, t, InfoIcon(k)), InfoIcon(k)) == t
  {
  }

  /** `reinitialize()`: every tooltip closed. */
  function Reinitialize(t: Tooltips): (r: Tooltips)
    ensures |r| == |t| && forall i :: 0 <= i < |r| ==> !r[i]
  {
    CloseAll(t)
  }

  // ---------------------------------------------------------------------
  // toggleSubscription

  /** The clicked toggle button: `disabled`, the `loading` class, and the
      text of its `span` (`None` when it has none). */
  datatype Button = Button(disabled: bool, loading: bool, text: Option<string>)

  const UpdatingText := "Updating..."
  const ToggleFailedMessage := "Failed to update subscription. Please try again."
  const ErrorsId := "CartDrawer-CartErrors"

  /** The outcome of a click on a toggle: the button, the page, the request
      sent, and whether the gift-note toggle and the swiper are
      re-initialised. */
  datatype Toggled = Toggled(button: Button, page: Page, sent: Option<Request>, reinit: bool)

  /** The sections this request asks for: the drawer's key (the `data-id`
      fallback, without the second empty-string check) and the bubble. */
  function RequestedSections(page: Page): (r: seq<string>)
    ensures r == [SectionId(page), BubbleId]
  {
    [SectionId(page), BubbleId]
  }

  /** The reply's drawer markup lands in the `.drawer__inner` descendant and
      the bubble's in its `.shopify-section` descendant, only when the
      descendant exists and the extracted markup is non-empty. `None` when
      the reply has no `sections` and one of the lookups reaches it (a
      TypeError). `drawerKey` is the key the drawer's markup is read from. */
  function SubscriptionSections(extract: Extractor, page: Page, sections: Option<map<string, string>>, drawerKey: string): (r: Option<Page>)
    ensures r.Some? ==> r.value.Keys == page.Keys
    ensures r.Some? ==> forall h :: h in page && h != ById(DrawerId) && h != ById(BubbleId) ==> r.value[h] == page[h]
    ensures r.Some? ==> forall h :: h in page ==> r.value[h].inner == page[h].inner && r.value[h].classes == page[h].classes
    ensures r.None? <==> sections.None? && (HasPart(page, DrawerId, ".drawer__inner") || ById(BubbleId) in page)
  {
    var drawerHasInner := HasPart(page, DrawerId, ".drawer__inner");
    if sections.None? && (drawerHasInner || ById(BubbleId) in page) then None
    else
      var afterDrawer := WritePart(extract, page, sections, DrawerId, drawerKey, ".drawer__inner");
      Some(WritePart(extract, afterDrawer, sections, BubbleId, BubbleId, ".shopify-section"))
  }

  predicate HasPart(page: Page, id: string, selector: string) {
    ById(id) in page && selector in page[ById(id)].parts
  }

  /** One `if (el && sections[key]) { content = ...; if (content) part.innerHTML = content }`. */
  function WritePart(extract: Extractor, page: Page, sections: Option<map<string, string>>, id: string, key: string, selector: string): (r: Page)
    ensures r.Keys == page.Keys
    ensures forall h :: h in page && h != ById(id) ==> r[h] == page[h]
    ensures forall h :: h in page ==> r[h].inner == page[h].inner && r[h].classes == page[h].classes
    ensures HasPart(page, id, selector) && sections.Some? && key in sections.value
            && Truthy(SectionInnerHTML(extract, sections.value[key], selector))
            ==> r[ById(id)].parts == page[ById(id)].parts[selector := SectionInnerHTML(extract, sections.value[key], selector)]
    ensures !(sections.Some? && key in sections.value && Truthy(SectionInnerHTML(extract, sections.value[key], selector)))
            ==> r == page
    ensures !HasPart(page, id, selector) ==> r == page
  {
    if HasPart(page, id, selector) && sections.Some? && key in sections.value && Truthy(sections.value[key]) then
      var content := SectionInnerHTML(extract, sections.value[key], selector);
      if Truthy(content) then page[ById(id) := WriteTarget(page[ById(id)], selector, content)] else page
    else page
  }

  /** `updateSections` as written: the drawer's markup is read under the
      fixed key `'cart-drawer'`, whatever key the request asked for. */
  function UpdateSectionsAsWritten(extract: Extractor, page: Page, sections: Option<map<string, string>>): (r: Option<Page>)
    ensures r.Some? ==> r.value.Keys == page.Keys
    ensures sections.Some? && DefaultSectionId !in sections.value && r.Some? ==>
              forall h :: h in page && h != ById(BubbleId) ==> r.value[h] == page[h]
  {
    SubscriptionSections(extract, page, sections, DefaultSectionId)
  }

  /** `updateSections` reading the drawer's markup under the key the
      request asked for. */
  function UpdateSections(extract: Extractor, page: Page, sections: Option<map<string, string>>): (r: Option<Page>)
    ensures r.Some? ==> r.value.Keys == page.Keys
    ensures r.Some? ==> forall h :: h in page && h != ById(DrawerId) && h != ById(BubbleId) ==> r.value[h] == page[h]
    ensures r.None? <==> sections.None? && (HasPart(page, DrawerId, ".drawer__inner") || ById(BubbleId) in page)
  {
    SubscriptionSections(extract, page, sections, SectionId(page))
  }

  /** The catch handler: the button restored to its text before the click
      and re-enabled, and the failure message shown. */
  function Restore(page: Page, text: string): (r: Toggled)
    ensures r.button == Button(false, false, Some(text)) && r.sent.None? && !r.reinit
    ensures r.page.Keys == page.Keys
    ensures ById(ErrorsId) in page ==> r.page[ById(ErrorsId)].inner == ToggleFailedMessage
    ensures forall h :: h in page && h != ById(ErrorsId) ==> r.page[h] == page[h]
  {
    Toggled(Button(false, false, Some(text)), SetTextOn(page, ById(ErrorsId), ToggleFailedMessage), None, false)
  }

  /** A click on a toggle button, given the wrapper's `data-line` and
      `data-selling-plan-id`, the reply, whether the page has a
      `<cart-drawer>`, and the key `updateSections` reads the drawer's
      markup from. A button without a `span` throws before any request. A
      non-ok status throws into the catch handler like a rejection. After a
      successful reply the button is left disabled and busy: only fresh
      markup from the repaint replaces it. */
  function Toggle(extract: Extractor, page: Page, button: Button, line: string, plan: string, reply: Reply, wrapper: bool, drawerKey: string): (r: Toggled)
    ensures r.page.Keys == page.Keys
    ensures button.text.None? ==> r.sent.None? && r.page == page && r.button.disabled && r.button.loading
    ensures button.text.Some? ==> r.sent == Some(ChangePlan(ParseInt(line), plan, RequestedSections(page)))
    ensures button.text.Some? && (reply.Rejected? || !HttpOk(reply.httpStatus)
                                  || SubscriptionSections(extract, page, reply.body.sections, drawerKey).None?) ==>
              r.button == Button(false, false, button.text) && !r.reinit
              && (ById(ErrorsId) in page ==> r.page[ById(ErrorsId)].inner == ToggleFailedMessage)
              && (forall h :: h in page && h != ById(ErrorsId) ==> r.page[h] == page[h])
    ensures button.text.Some? && reply.Received? && HttpOk(reply.httpStatus)
            && SubscriptionSections(extract, page, reply.body.sections, drawerKey).Some? ==>
              r.button == Button(true, true, Some(UpdatingText)) && r.reinit == wrapper
              && r.page == SubscriptionSections(extract, page, reply.body.sections, drawerKey).value
  {
    var busy := button.(disabled := true, loading := true);
    if button.text.None? then Toggled(busy, page, None, false)
    else
      var sent := Some(ChangePlan(ParseInt(line), plan, RequestedSections(page)));
      var updating := busy.(text := Some(UpdatingText));
      var outcome :=
        match reply
        case Rejected => Restore(page, button.text.value)
        case Received(status, body) =>
          if !HttpOk(status) then Restore(page, button.text.value)
          else
            match SubscriptionSections(extract, page, body.sections, drawerKey)
            case None => Restore(page, button.text.value)
            case Some(p) => Toggled(updating, p, None, wrapper);
      outcome.(sent := sent)
  }

  /** `toggleSubscription` as written: the reply is applied by the
      `updateSections` that reads the drawer's markup under
      `'cart-drawer'`. */
  function ToggleSubscription(extract: Extractor, page: Page, button: Button, line: string, plan: string, reply: Reply, wrapper: bool): (r: Toggled)
    ensures r.page.Keys == page.Keys
    ensures button.text.None? ==> r.sent.None? && r.page == page && r.button.disabled && r.button.loading
    ensures button.text.Some? ==> r.sent == Some(ChangePlan(ParseInt(line), plan, RequestedSections(page)))
    ensures button.text.Some? && (reply.Rejected? || !HttpOk(reply.httpStatus)
                                  || UpdateSectionsAsWritten(extract, page, reply.body.sections).None?) ==>
              r.button == Button(false, false, button.text) && !r.reinit
              && (ById(ErrorsId) in page ==> r.page[ById(ErrorsId)].inner == ToggleFailedMessage)
              && (forall h :: h in page && h != ById(ErrorsId) ==> r.page[h] == page[h])
    ensures button.text.Some? && reply.Received? && HttpOk(reply.httpStatus)
            && UpdateSectionsAsWritten(extract, page, reply.body.sections).Some? ==>
              r.button == Button(true, true, Some(UpdatingText)) && r.reinit == wrapper
              && r.page == UpdateSectionsAsWritten(extract, page, reply.body.sections).value
  {
    Toggle(extract, page, button, line, plan, reply, wrapper, DefaultSectionId)
  }

  /** `toggleSubscription` with the drawer's markup read under the key the
      request asked for. */
  function ToggleSubscriptionFixed(extract: Extractor, page: Page, button: Button, line: string, plan: string, reply: Reply, wrapper: bool): (r: Toggled)
    ensures r.page.Keys == page.Keys
    ensures button.text.None? ==> r.sent.None? && r.page == page && r.button.disabled && r.button.loading
    ensures button.text.Some? ==> r.sent == Some(ChangePlan(ParseInt(line), plan, RequestedSections(page)))
    ensures button.text.Some? && (reply.Rejected? || !HttpOk(reply.httpStatus)
                                  || UpdateSections(extract, page, reply.body.sections).None?) ==>
              r.button == Button(false, false, button.text) && !r.reinit
              && (ById(ErrorsId) in page ==> r.page[ById(ErrorsId)].inner == ToggleFailedMessage)
              && (forall h :: h in page && h != ById(ErrorsId) ==> r.page[h] == page[h])
    ensures button.text.Some? && reply.Received? && HttpOk(reply.httpStatus)
            && UpdateSections(extract, page, reply.body.sections).Some? ==>
              r.button == Button(true, true, Some(UpdatingText)) && r.reinit == wrapper
              && r.page == UpdateSections(extract, page, reply.body.sections).value
  {
    Toggle(extract, page, button, line, plan, reply, wrapper, SectionId(page))
  }

  // ---------------------------------------------------------------------
  // The drawer key

  /** The drawer's markup arrives under the key the request named: with the
      corrected read, a successful toggle whose reply carries non-empty
      drawer markup repaints `.drawer__inner` from it. */
  lemma {:induction false} ToggleRepaintsDrawer(extract: Extractor, page: Page, button: Button, line: string, plan: string,
                                               status: int, body: Response, wrapper: bool)
    requires HasPart(page, DrawerId, ".drawer__inner")
    requires button.text.Some? && HttpOk(status)
    requires body.sections.Some? && SectionId(page) in body.sections.value
    requires Truthy(SectionInnerHTML(extract, body.sections.value[SectionId(page)], ".drawer__inner"))
    ensures var r := ToggleSubscriptionFixed(extract, page, button, line, plan, Received(status, body), wrapper);
            && r.button == Button(true, true, Some(UpdatingText))
            && r.page[ById(DrawerId)].parts[".drawer__inner"] == SectionInnerHTML(extract, body.sections.value[SectionId(page)], ".drawer__inner")
  {
    var sections := body.sections.value;
    var content := SectionInnerHTML(extract, sections[SectionId(page)], ".drawer__inner");
    var afterDrawer := WritePart(extract, page, Some(sections), DrawerId, SectionId(page), ".drawer__inner");
    assert afterDrawer[ById(DrawerId)].parts[".drawer__inner"] == content;
    var r := WritePart(extract, afterDrawer, Some(sections), BubbleId, BubbleId, ".shopify-section");
    assert ById(BubbleId) != ById(DrawerId);
    assert r[ById(DrawerId)] == afterDrawer[ById(DrawerId)];
    assert UpdateSections(extract, page, Some(sections)) == Some(r);
  }

  /** As written, a reply without a `'cart-drawer'` entry never changes the
      drawer: a successful toggle leaves `#CartDrawer` as it was and the
      button disabled with `Updating...`. */
  lemma AsWrittenKeepsDrawer(extract: Extractor, page: Page, button: Button, line: string, plan: string,
                             status: int, body: Response, wrapper: bool)
    requires ById(DrawerId) in page
    requires button.text.Some? && HttpOk(status)
    requires body.sections.Some? && DefaultSectionId !in body.sections.value
    ensures var r := ToggleSubscription(extract, page, button, line, plan, Received(status, body), wrapper);
            && r.button == Button(true, true, Some(UpdatingText))
            && r.page[ById(DrawerId)] == page[ById(DrawerId)]
  {
  }

  /** The drawer whose `data-id` is `"x"`, with a `.drawer__inner`. */
  const SampleDrawer := Element("", map[".drawer__inner" := "old"], {}, map["data-id" := "x"], "")

  /** The reply to a request for `["x", "cart-icon-bubble"]`. */
  const SampleSections := map["x" := "<div class=\"drawer__inner\">new</div>"]

  /** With the corrected read, the same drawer and reply as in
      `AsWrittenMissesDrawer` get the new markup. */
  lemma FixedRepaintsSample(extract: Extractor, status: int)
    requires forall html, sel :: extract(html, sel) == Some("new")
    requires HttpOk(status)
    ensures var page := map[ById(DrawerId) := SampleDrawer];
            var button := Button(false, false, Some("Subscribe"));
            var reply := Received(status, Response(None, None, 1, 0, [], Some(SampleSections), None));
            ToggleSubscriptionFixed(extract, page, button, "1", "p", reply, true).page[ById(DrawerId)]
            == SampleDrawer.(parts := map[".drawer__inner" := "new"])
  {
    var page := map[ById(DrawerId) := SampleDrawer];
    assert Attr(SampleDrawer, "data-id") == Some("x");
    assert SectionId(page) == "x";
    assert SectionInnerHTML(extract, SampleSections["x"], ".drawer__inner") == "new";
    var afterDrawer := WritePart(extract, page, Some(SampleSections), DrawerId, "x", ".drawer__inner");
    assert afterDrawer[ById(DrawerId)] == SampleDrawer.(parts := map[".drawer__inner" := "new"]);
    assert UpdateSections(extract, page, Some(SampleSections)) == Some(afterDrawer);
  }

  /** As written, a drawer whose section key is not `'cart-drawer'` is never
      repainted: the request names `"x"`, the reply carries the drawer's
      markup under `"x"`, the toggle looks under `'cart-drawer'` and finds
      nothing, and the drawer keeps its old markup while the button stays
      disabled with `Updating...`. */
  lemma AsWrittenMissesDrawer(extract: Extractor, status: int)
    requires forall html, sel :: extract(html, sel) == Some("new")
    requires HttpOk(status)
    ensures var page := map[ById(DrawerId) := SampleDrawer];
            var button := Button(false, false, Some("Subscribe"));
            var reply := Received(status, Response(None, None, 1, 0, [], Some(SampleSections), None));
            && SectionId(page) == "x"
            && RequestedSections(page) == ["x", BubbleId]
            && ToggleSubscription(extract, page, button, "1", "p", reply, true).page == page
            && ToggleSubscription(extract, page, button, "1", "p", reply, true).button == Button(true, true, Some(UpdatingText))
  {
    var page := map[ById(DrawerId) := SampleDrawer];
    var button := Button(false, false, Some("Subscribe"));
    var body := Response(None, None, 1, 0, [], Some(SampleSections), None);
    assert Attr(SampleDrawer, "data-id") == Some("x");
    assert DefaultSectionId !in SampleSections;
    AsWrittenKeepsDrawer(extract, page, button, "1", "p", status, body, true);
  }
}
