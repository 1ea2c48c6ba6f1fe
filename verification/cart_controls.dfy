/** The drawer's one-click controls: add and remove a free sample, add a
    recommended product once or as a subscription. Each is a guard, one
    request, and an outcome drawn from the reply, with the control's busy
    state cleared in `finally`. */
module CartControls {
  import opened Js
  import opened Dom
  import opened Cart
  import opened Sections

  datatype Kind = AddSample | RemoveSample | AddRecommendation | AddSubscription

  /** The control element: its `data-sample-id` or `data-variant-id`, its
      `data-selling-plan-id`, its `disabled` attribute and `loading` class,
      the `disabled` property of its `.recommendation-card__button` (`None`
      when it has none), whether it sits in a `.swiper-slide` that is still
      in the document, and whether its `data-layer` is set but is not JSON
      (`JSON.parse` then throws out of the click listener). */
  datatype Control = Control(
    kind: Kind,
    id: string,
    sellingPlan: string,
    disabled: bool,
    loading: bool,
    button: Option<bool>,
    inSlide: bool,
    badLayer: bool)

  /** The result of a click: the control, the page, the request sent (if
      any), and whether `initRecommendationsSwiper` was scheduled. */
  datatype Clicked = Clicked(control: Control, page: Page, sent: Option<Request>, swiperReinit: bool)

  const ErrorsId := "CartDrawer-CartErrors"
  const UnavailableMessage := "This product is currently unavailable."
  const AddFailedMessage := "Failed to add product to cart. Please try again."
  const SubscribeFailedMessage := "Failed to add subscription to cart. Please try again."

  /** Only the recommendation controls ignore a click while `disabled`. */
  predicate Guarded(k: Kind) {
    k == AddRecommendation || k == AddSubscription
  }

  /** The click gets as far as `fetch`: not ignored by the guard, and no
      throw from `JSON.parse`. */
  predicate Sends(c: Control) {
    !(Guarded(c.kind) && c.disabled) && !c.badLayer
  }

  /** The request body each control posts, naming the drawer sections. */
  function RequestOf(c: Control, page: Page): (r: Request)
    ensures r.sections == Keys(DrawerSections(page))
    ensures c.kind == RemoveSample <==> r.ChangeById?
    ensures r.ChangeById? ==> r.id == c.id && r.quantity == 0
    ensures r.Add? ==> r.variant == c.id && (r.plan.Some? <==> c.kind == AddSubscription)
  {
    var keys := Keys(DrawerSections(page));
    match c.kind
    case AddSample => Add(c.id, None, keys)
    case RemoveSample => ChangeById(c.id, 0, keys)
    case AddRecommendation => Add(c.id, None, keys)
    case AddSubscription => Add(c.id, Some(c.sellingPlan), keys)
  }

  /** The `updateSections` the controls share: nothing without `sections`,
      otherwise the drawer sections reconciled like `updateQuantity` does. */
  function UpdateSections(extract: Extractor, page: Page, st: Response): (r: Page)
    ensures r.Keys == page.Keys
    ensures st.sections.None? ==> r == page
    ensures st.sections.Some? ==> forall i :: 0 <= i < 2 && Applicable(DrawerSections(page)[i], st.sections.value, page) ==>
              r[ById(DrawerSections(page)[i].id)] == Refreshed(extract, DrawerSections(page)[i], st.sections.value, page)
    ensures st.sections.Some? ==>
              forall i :: 0 <= i < 2 && !Applicable(DrawerSections(page)[i], st.sections.value, page) && ById(DrawerSections(page)[i].id) in page
                ==> r[ById(DrawerSections(page)[i].id)] == page[ById(DrawerSections(page)[i].id)]
    ensures forall h :: h in page && h != ById(DrawerId) && h != ById(BubbleId) ==> r[h] == page[h]
  {
    if st.sections.None? then page
    else
      var secs := DrawerSections(page);
      assert DistinctIds(secs);
      forall i | 0 <= i < 2 && ById(secs[i].id) in page
        ensures var r := ApplySections(extract, secs, st.sections.value, page);
                r[ById(secs[i].id)] == (if Applicable(secs[i], st.sections.value, page) then Refreshed(extract, secs[i], st.sections.value, page) else page[ById(secs[i].id)])
      {
        ApplySectionsAt(extract, secs, st.sections.value, page, i);
      }
      forall h | h in page && h != ById(DrawerId) && h != ById(BubbleId)
        ensures !Targets(secs, st.sections.value, page, h)
      {
      }
      ApplySections(extract, secs, st.sections.value, page)
  }

  /** `errors.textContent = text` on `#CartDrawer-CartErrors` when present.
      The timer that clears it three seconds later is not modelled. */
  function ShowError(page: Page, text: string): (r: Page)
    ensures r.Keys == page.Keys
    ensures ById(ErrorsId) in page ==> r[ById(ErrorsId)].inner == text
    ensures forall h :: h in page && h != ById(ErrorsId) ==> r[h] == page[h]
  {
    SetTextOn(page, ById(ErrorsId), text)
  }

  /** The `finally` handler: `loading` and `disabled` removed; only the
      recommendation controls re-enable their button, the sample controls
      never touch one. */
  function Release(c: Control): (r: Control)
    ensures !r.disabled && !r.loading
    ensures Guarded(c.kind) ==> (r.button.Some? <==> c.button.Some?) && (r.button.Some? ==> r.button == Some(false))
    ensures !Guarded(c.kind) ==> r.button == c.button
    ensures r.kind == c.kind && r.id == c.id && r.sellingPlan == c.sellingPlan && r.inSlide == c.inSlide && r.badLayer == c.badLayer
  {
    c.(disabled := false, loading := false, button := if Guarded(c.kind) && c.button.Some? then Some(false) else c.button)
  }

  /** What the `.then` and `.catch` callbacks do with the reply. */
  function Outcome(extract: Extractor, c: Control, page: Page, reply: Reply, wrapper: bool): (r: (Control, Page, bool))
    ensures r.0.kind == c.kind && r.0.id == c.id && r.0.button == c.button
    ensures r.1.Keys == page.Keys
    ensures reply.Received? && !(Guarded(c.kind) && reply.body.status == Some(422)) ==>
              r.1 == UpdateSections(extract, page, reply.body)
              && r.2 == (wrapper && (Guarded(c.kind) || reply.body.sections.Some?))
  {
    match reply
    case Rejected =>
      if c.kind == AddRecommendation then (c, ShowError(page, AddFailedMessage), false)
      else if c.kind == AddSubscription then (c, ShowError(page, SubscribeFailedMessage), false)
      else (c, page, false)
    case Received(_, st) =>
      if Guarded(c.kind) then
        if st.status == Some(422) then
          var text := if st.message.Some? && Truthy(st.message.value) then st.message.value else UnavailableMessage;
          (c.(inSlide := false), ShowError(page, text), false)
        else (c, UpdateSections(extract, page, st), wrapper)
      else if st.sections.None? then (c, page, false)
      else (c, UpdateSections(extract, page, st), wrapper)
  }

  /** The control as the listener leaves it before `JSON.parse`: the
      remove-sample control parses first and marks itself busy after, the
      others mark themselves busy (and a recommendation control disables its
      button) first. */
  function Busy(c: Control): (r: Control)
    ensures r.kind == c.kind && r.id == c.id && r.sellingPlan == c.sellingPlan && r.inSlide == c.inSlide && r.badLayer == c.badLayer
    ensures r.disabled && r.loading
    ensures Guarded(c.kind) ==> (r.button.Some? <==> c.button.Some?) && (r.button.Some? ==> r.button == Some(true))
    ensures !Guarded(c.kind) ==> r.button == c.button
  {
    c.(disabled := true, loading := true, button := if Guarded(c.kind) && c.button.Some? then Some(true) else c.button)
  }

  /** A click on the control, given the reply its request receives and
      whether the page has a `<cart-drawer>` wrapper. A malformed
      `data-layer` throws out of the listener: no request, no `finally`, so
      the control stays as far as it got. */
  function Click(extract: Extractor, c: Control, page: Page, reply: Reply, wrapper: bool): (r: Clicked)
    ensures Guarded(c.kind) && c.disabled ==> r == Clicked(c, page, None, false)
    ensures r.sent.Some? <==> Sends(c)
    ensures Sends(c) ==> r.sent == Some(RequestOf(c, page))
    ensures !Sends(c) ==> r.page == page && !r.swiperReinit
    ensures c.badLayer && c.kind == RemoveSample ==> r.control == c
    ensures c.badLayer && c.kind != RemoveSample && !(Guarded(c.kind) && c.disabled) ==> r.control == Busy(c)
    ensures r.sent.Some? ==> !r.control.disabled && !r.control.loading
    ensures r.sent.Some? && Guarded(c.kind) && c.button.Some? ==> r.control.button == Some(false)
    ensures !Guarded(c.kind) ==> r.control.button == c.button
    ensures r.page.Keys == page.Keys
    ensures Sends(c) && reply.Received? && !(Guarded(c.kind) && reply.body.status == Some(422)) ==>
              r.page == UpdateSections(extract, page, reply.body)
              && r.swiperReinit == (wrapper && (Guarded(c.kind) || reply.body.sections.Some?))
  {
    if Guarded(c.kind) && c.disabled then Clicked(c, page, None, false)
    else if c.badLayer then
      if c.kind == RemoveSample then Clicked(c, page, None, false)
      else Clicked(Busy(c), page, None, false)
    else
      var (after, p, reinit) := Outcome(extract, Busy(c), page, reply, wrapper);
      Clicked(Release(after), p, Some(RequestOf(c, page)), reinit)
  }

  // ---------------------------------------------------------------------
  // Properties

  /** The sample controls have no guard: a click while disabled still sends
      its request. */
  lemma SamplesUnguarded(extract: Extractor, c: Control, page: Page, reply: Reply, wrapper: bool)
    requires c.kind == AddSample || c.kind == RemoveSample
    ensures Click(extract, c, page, reply, wrapper).sent == if c.badLayer then None else Some(RequestOf(c, page))
  {
  }

  /** A 422 body on a recommendation control: the message (or the default)
      shown, the slide removed, no section rewritten, no swiper re-init. */
  lemma UnavailableRemovesSlide(extract: Extractor, c: Control, page: Page, status: int, st: Response, wrapper: bool)
    requires Guarded(c.kind) && Sends(c) && st.status == Some(422)
    ensures var r := Click(extract, c, page, Received(status, st), wrapper);
            && !r.control.inSlide && !r.swiperReinit
            && (ById(ErrorsId) in page ==>
                  r.page[ById(ErrorsId)].inner == if st.message.Some? && st.message.value != "" then st.message.value else UnavailableMessage)
            && (forall h :: h in page && h != ById(ErrorsId) ==> r.page[h] == page[h])
  {
  }

  /** A rejected request on a recommendation control shows the control's
      failure message and changes nothing else; on a sample control it
      changes nothing at all. */
  lemma RejectedMessage(extract: Extractor, c: Control, page: Page, wrapper: bool)
    requires Sends(c)
    ensures var r := Click(extract, c, page, Rejected, wrapper);
            && !r.swiperReinit
            && (Guarded(c.kind) && ById(ErrorsId) in page ==>
                  r.page[ById(ErrorsId)].inner == if c.kind == AddRecommendation then AddFailedMessage else SubscribeFailedMessage)
            && (forall h :: h in page && (h != ById(ErrorsId) || !Guarded(c.kind)) ==> r.page[h] == page[h])
  {
  }

  /** The swiper re-init is scheduled after a non-422 reply, with a drawer
      wrapper; the sample controls skip it when the reply has no
      `sections` (they return early), the recommendation controls do not. */
  lemma SwiperReinitPlacement(extract: Extractor, c: Control, page: Page, status: int, st: Response)
    requires Sends(c) && st.status != Some(422)
    ensures Click(extract, c, page, Received(status, st), true).swiperReinit <==> Guarded(c.kind) || st.sections.Some?
    ensures !Click(extract, c, page, Received(status, st), false).swiperReinit
  {
  }
}
