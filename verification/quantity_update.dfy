/** `CartDrawerItems.updateQuantity`: the change request, the free-sample
    follow-up, and the repaint of the drawer from the settled reply (error
    branch, `is-empty` flags, sections, live-region message, focus), with
    the loading state bracketing every path. Also the drawer quantity
    input's "minus at 1 removes the line" rule. */
module QuantityUpdate {
  import opened Js
  import opened Dom
  import opened Cart
  import opened Sections

  /** Where focus goes after a repaint. */
  datatype FocusTarget =
    | LineControl(line: nat, name: string, trapped: bool)  // the edited control in the new markup
    | EmptyState                                          // the first link of `.drawer__inner-empty`
    | FirstItemName                                       // `.cart-item__name`

  /** Calls into code outside this file, and the requests sent, in order. */
  datatype Effect =
    | EnableLoading(line: nat)
    | DisableLoading(line: nat)
    | Send(request: Request)
    | Announce(line: nat, message: string)   // `updateLiveRegions(line, message)`
    | ReinitGiftNote
    | ReinitSwiper
    | ReinitTooltips
    | Focus(target: FocusTarget)
    | HideSpinners
    | Publish                                // `publish(PUB_SUB_EVENTS.cartUpdate, ...)`

  /** `window.cartStrings`. */
  datatype Strings = Strings(error: string, quantityError: string)

  /** What the document answers to selector queries the model cannot run
      on markup strings: the `.cart-item` rows present before the repaint,
      and whether the new markup has the edited line's control and any
      cart row. */
  datatype Probe = Probe(rowsBefore: nat, lineControlAfter: bool, itemAfter: bool)

  /** Everything `updateQuantity` reads besides the page and its arguments.
      `tooltipReinit` selects the class definition that is live: the one
      defined on `DOMContentLoaded` re-initialises the subscription
      tooltips after a repaint, the one defined at load time does not. */
  datatype Env = Env(
    extract: Extractor,
    strings: Strings,
    threshold: Threshold,
    tooltipReinit: bool,
    probe: Probe)

  const ItemsHost := Query("cart-drawer-items")
  const Wrapper := Query("cart-drawer")
  const Footer := ById("main-cart-footer")

  /** `#Quantity-<line>`, else `#Drawer-quantity-<line>`. */
  function QuantityInput(page: Page, line: nat): (r: Option<Handle>)
    ensures r.Some? ==> r.value in page
  {
    var a := ById("Quantity-" + NatToString(line));
    var b := ById("Drawer-quantity-" + NatToString(line));
    if a in page then Some(a) else if b in page then Some(b) else None
  }

  /** `el.value = el.getAttribute('value')`: a missing attribute reads as
      `null`, which empties the input. */
  function Revert(e: Element): Element {
    e.(value := Attr(e, "value").GetOr(""))
  }

  /** `parsedState.items[line - 1].quantity`, or `undefined`. */
  function UpdatedValue(st: Response, line: nat): Option<nat> {
    if 1 <= line <= |st.items| then Some(st.items[line - 1].quantity) else None
  }

  /** The live-region message after a successful repaint. */
  function LiveMessage(strings: Strings, rowsMatch: bool, updated: Option<nat>, inputValue: string): (r: string)
    ensures !rowsMatch ==> r == ""
    ensures rowsMatch && updated.None? ==> r == strings.error
    ensures updated.Some? && ParseInt(inputValue) == Some(updated.value as int) ==> r == ""
    ensures rowsMatch && updated.Some? && ParseInt(inputValue) != Some(updated.value as int) ==>
              r == ReplaceFirst(strings.quantityError, "[quantity]", NatToString(updated.value))
  {
    if rowsMatch && (updated.None? || ParseInt(inputValue) != Some(updated.value as int)) then
      if updated.None? then strings.error
      else ReplaceFirst(strings.quantityError, "[quantity]", NatToString(updated.value))
    else ""
  }

  /** Where `updateQuantity` moves focus: the edited control when the new
      markup has it (trapped in the drawer when there is one), else the
      empty-state link of an emptied drawer, else the first item name; with
      no drawer wrapper only the first choice applies. */
  function FocusEffects(probe: Probe, st: Response, line: nat, name: string, wrapper: bool): (r: seq<Effect>)
    ensures |r| <= 1 && Local(r)
    ensures forall i :: 0 <= i < |r| ==> r[i].Focus?
    ensures |r| == 1 <==> probe.lineControlAfter || (wrapper && (st.itemCount == 0 || probe.itemAfter))
    ensures probe.lineControlAfter ==> r == [Focus(LineControl(line, name, wrapper))]
    ensures r == [Focus(EmptyState)] ==> st.itemCount == 0 && wrapper && !probe.lineControlAfter
    ensures r == [Focus(FirstItemName)] ==> st.itemCount != 0 && wrapper && probe.itemAfter
  {
    if probe.lineControlAfter then [Focus(LineControl(line, name, wrapper))]
    else if st.itemCount == 0 && wrapper then [Focus(EmptyState)]
    else if probe.itemAfter && wrapper then [Focus(FirstItemName)]
    else []
  }

  /** An effect of the repaint or catch stages: neither a loading toggle
      nor a request. */
  predicate IsLocal(e: Effect) {
    !e.EnableLoading? && !e.DisableLoading? && !e.Send?
  }

  predicate Local(effects: seq<Effect>) {
    forall i :: 0 <= i < |effects| ==> IsLocal(effects[i])
  }

  /** The page and effects of a stage, and whether it threw. */
  datatype Stage = Stage(page: Page, effects: seq<Effect>, threw: bool)

  /** The `is-empty` class on the items list, the footer and the wrapper. */
  function MarkEmpty(page: Page, empty: bool): (r: Page)
    ensures r.Keys == page.Keys
    ensures forall h :: h in page && h != ItemsHost && h != Footer && h != Wrapper ==> r[h] == page[h]
    ensures forall h :: h in page && (h == ItemsHost || h == Footer || h == Wrapper) ==>
              ("is-empty" in r[h].classes) == empty && r[h].classes - {"is-empty"} == page[h].classes - {"is-empty"}
    ensures forall h :: h in page ==>
              r[h].inner == page[h].inner && r[h].parts == page[h].parts && r[h].attrs == page[h].attrs && r[h].value == page[h].value
  {
    map h | h in page :: if h == ItemsHost || h == Footer || h == Wrapper then SetClass(page[h], "is-empty", empty) else page[h]
  }

  lemma LocalAppend(a: seq<Effect>, b: seq<Effect>)
    requires Local(a) && Local(b)
    ensures Local(a + b)
  {
    forall i | 0 <= i < |a + b| ensures IsLocal((a + b)[i]) {
      if i >= |a| { assert (a + b)[i] == b[i - |a|]; }
    }
  }

  /** The re-initialisation calls after the sections are rewritten. */
  function Hooks(wrapper: bool, tooltipReinit: bool): (r: seq<Effect>)
    ensures Local(r)
    ensures forall i :: 0 <= i < |r| ==> !r[i].Announce? && !r[i].Focus?
    ensures (ReinitSwiper in r <==> wrapper) && (ReinitTooltips in r <==> tooltipReinit)
  {
    (if wrapper then [ReinitGiftNote, ReinitSwiper] else []) + (if tooltipReinit then [ReinitTooltips] else [])
  }

  /** The repaint callback run on the settled reply. Reading `.value` of a
      missing quantity input, or indexing a reply without `sections`, throws. */
  function Paint(env: Env, page: Page, line: nat, name: string, st: Response): (r: Stage)
    ensures Local(r.effects)
  {
    var input := QuantityInput(page, line);
    if HasErrors(st) then
      if input.None? then Stage(page, [], true)
      else Stage(page[input.value := Revert(page[input.value])], [Announce(line, st.errors.value)], false)
    else Repaint(env, page, line, name, st)
  }

  /** The callback past the error check: `is-empty`, sections, hooks,
      message and focus. A reply without `sections` throws once the flags
      are set; so does a reply with the same number of rows when the
      quantity input is missing, once the sections are rewritten. */
  function Repaint(env: Env, page: Page, line: nat, name: string, st: Response): (r: Stage)
    ensures Local(r.effects)
    ensures r.page.Keys == page.Keys
    ensures r.threw <==> st.sections.None? || (env.probe.rowsBefore == |st.items| && QuantityInput(page, line).None?)
    ensures st.sections.None? ==> r.page == MarkEmpty(page, st.itemCount == 0) && r.effects == []
  {
    var input := QuantityInput(page, line);
    var marked := MarkEmpty(page, st.itemCount == 0);
    if st.sections.None? then Stage(marked, [], true)
    else
      var painted := ApplySections(env.extract, DrawerSections(page), st.sections.value, marked);
      var hooks := Hooks(Wrapper in page, env.tooltipReinit);
      var rowsMatch := env.probe.rowsBefore == |st.items|;
      if rowsMatch && input.None? then Stage(painted, hooks, true)
      else
        var message := LiveMessage(env.strings, rowsMatch, UpdatedValue(st, line), InputValue(page, line));
        var focus := FocusEffects(env.probe, st, line, name, Wrapper in page);
        LocalAppend(hooks, [Announce(line, message)]);
        LocalAppend(hooks + [Announce(line, message)], focus);
        Stage(painted, hooks + [Announce(line, message)] + focus, false)
  }

  /** `#cart-errors`, else `#CartDrawer-CartErrors`; `None` when the page
      has neither. */
  function ErrorRegion(page: Page): (r: Option<Handle>)
    ensures r.Some? ==> r.value in page
    ensures ById("cart-errors") in page ==> r == Some(ById("cart-errors"))
    ensures ById("cart-errors") !in page && ById("CartDrawer-CartErrors") in page ==> r == Some(ById("CartDrawer-CartErrors"))
    ensures r.None? <==> ById("cart-errors") !in page && ById("CartDrawer-CartErrors") !in page
  {
    if ById("cart-errors") in page then Some(ById("cart-errors"))
    else if ById("CartDrawer-CartErrors") in page then Some(ById("CartDrawer-CartErrors"))
    else None
  }

  /** The `.catch` handler: spinners hidden, the generic error shown. */
  function Caught(env: Env, page: Page, effects: seq<Effect>): (r: Stage)
    requires Local(effects)
    ensures Local(r.effects)
    ensures r.effects == effects + [HideSpinners]
    ensures r.page.Keys == page.Keys && !r.threw
    ensures ErrorRegion(page).Some? ==> r.page[ErrorRegion(page).value] == SetText(page[ErrorRegion(page).value], env.strings.error)
    ensures forall h :: h in page && h != ById("cart-errors") && h != ById("CartDrawer-CartErrors") ==> r.page[h] == page[h]
    ensures forall h :: h in page ==> r.page[h].classes == page[h].classes
  {
    LocalAppend(effects, [HideSpinners]);
    var region := ErrorRegion(page);
    Stage(if region.Some? then SetTextOn(page, region.value, env.strings.error) else page, effects + [HideSpinners], false)
  }

  /** The repaint followed by `publish`, or the catch handler if it threw. */
  function Settle(env: Env, page: Page, line: nat, name: string, st: Response): (r: Stage)
    ensures Local(r.effects)
  {
    var p := Paint(env, page, line, name, st);
    if p.threw then Caught(env, p.page, p.effects)
    else
      LocalAppend(p.effects, [Publish]);
      Stage(p.page, p.effects + [Publish], false)
  }

  /** The reply that gets painted: the change reply, or the bulk update's
      reply when a follow-up was sent; `None` when a request was rejected. */
  function Settled(env: Env, first: Reply, second: Reply): (r: Option<Response>)
    ensures r.Some? ==> first.Received?
    ensures first.Received? && FollowUp(env.threshold, first.body).None? ==> r == Some(first.body)
    ensures first.Received? && FollowUp(env.threshold, first.body).Some? ==>
              (r.Some? <==> second.Received?) && (second.Received? ==> r == Some(second.body))
  {
    match first
    case Rejected => None
    case Received(_, body) =>
      match FollowUp(env.threshold, body)
      case None => Some(body)
      case Some(_) => if second.Received? then Some(second.body) else None
  }

  function Sends(effects: seq<Effect>): (r: seq<Request>)
    ensures |r| <= |effects|
  {
    if |effects| == 0 then []
    else (if effects[0].Send? then [effects[0].request] else []) + Sends(effects[1..])
  }

  function Announcements(effects: seq<Effect>): (r: seq<string>)
    ensures |r| <= |effects|
  {
    if |effects| == 0 then []
    else (if effects[0].Announce? then [effects[0].message] else []) + Announcements(effects[1..])
  }

  datatype Outcome = Outcome(page: Page, effects: seq<Effect>)

  /** Everything between the change request and `disableLoading`: the bulk
      update when one is sent, then the repaint or the catch handler. */
  function Pipeline(env: Env, page: Page, line: nat, name: string, first: Reply, second: Reply): (r: Stage)
    ensures Settled(env, first, second).Some? ==>
      r.page == Settle(env, page, line, name, Settled(env, first, second).value).page
    ensures Settled(env, first, second).None? ==> r.page == Caught(env, page, []).page
    ensures Announcements(r.effects) ==
      (if Settled(env, first, second).Some?
       then Announcements(Settle(env, page, line, name, Settled(env, first, second).value).effects) else [])
    ensures Sends(r.effects) ==
      (if first.Received? && FollowUp(env.threshold, first.body).Some?
       then [BulkUpdate(FollowUp(env.threshold, first.body).value, Keys(DrawerSections(page)))] else [])
    ensures forall i :: 0 <= i < |r.effects| ==> !r.effects[i].EnableLoading? && !r.effects[i].DisableLoading?
    ensures Settled(env, first, second).None? ==> HideSpinners in r.effects
  {
    var settled := Settled(env, first, second);
    var rest := if settled.Some? then Settle(env, page, line, name, settled.value) else Caught(env, page, []);
    LocalSendsNothing(rest.effects);
    if first.Received? && FollowUp(env.threshold, first.body).Some? then
      var bulk := BulkUpdate(FollowUp(env.threshold, first.body).value, Keys(DrawerSections(page)));
      SendBefore(bulk, rest.effects);
      rest.(effects := [Send(bulk)] + rest.effects)
    else rest
  }

  /** A request sent before local effects: the only request, no
      announcement, no loading toggle. */
  lemma SendBefore(request: Request, effects: seq<Effect>)
    requires Local(effects)
    ensures Sends([Send(request)] + effects) == [request]
    ensures Announcements([Send(request)] + effects) == Announcements(effects)
    ensures forall i :: 0 <= i < |[Send(request)] + effects| ==>
              !([Send(request)] + effects)[i].EnableLoading? && !([Send(request)] + effects)[i].DisableLoading?
  {
    LocalSendsNothing(effects);
    SendsAppend([Send(request)], effects);
    AnnouncementsAppend([Send(request)], effects);
    assert forall i :: 1 <= i < |[Send(request)] + effects| ==> ([Send(request)] + effects)[i] == effects[i - 1];
  }

  /** `updateQuantity(line, quantity, event, name)` given the replies the
      change request (`first`) and the bulk update (`second`, consulted only
      when one is sent) receive. A non-ok HTTP status is only logged. Every
      path starts with `enableLoading(line)` and the change request, and
      ends with `disableLoading(line)`; no other loading toggle happens. */
  function UpdateQuantity(env: Env, page: Page, line: nat, quantity: int, name: string, first: Reply, second: Reply): (r: Outcome)
    ensures |r.effects| >= 3
    ensures r.effects[0] == EnableLoading(line) && r.effects[|r.effects| - 1] == DisableLoading(line)
    ensures forall i :: 0 < i < |r.effects| - 1 ==> !r.effects[i].EnableLoading? && !r.effects[i].DisableLoading?
    ensures r.effects[1] == Send(ChangeLine(line, quantity, Keys(DrawerSections(page))))
  {
    var stage := Pipeline(env, page, line, name, first, second);
    Outcome(stage.page, [EnableLoading(line), Send(ChangeLine(line, quantity, Keys(DrawerSections(page))))]
                        + stage.effects + [DisableLoading(line)])
  }

  // ---------------------------------------------------------------------
  // Effect lists

  lemma {:induction false} SendsAppend(a: seq<Effect>, b: seq<Effect>)
    ensures Sends(a + b) == Sends(a) + Sends(b)
    decreases |a|
  {
    if |a| == 0 {
      assert a + b == b;
    } else {
      var head := if a[0].Send? then [a[0].request] else [];
      assert (a + b)[0] == a[0] && (a + b)[1..] == a[1..] + b;
      assert Sends(a + b) == head + Sends(a[1..] + b);
      SendsAppend(a[1..], b);
      assert head + (Sends(a[1..]) + Sends(b)) == (head + Sends(a[1..])) + Sends(b);
    }
  }

  lemma {:induction false} AnnouncementsAppend(a: seq<Effect>, b: seq<Effect>)
    ensures Announcements(a + b) == Announcements(a) + Announcements(b)
    decreases |a|
  {
    if |a| == 0 {
      assert a + b == b;
    } else {
      var head := if a[0].Announce? then [a[0].message] else [];
      assert (a + b)[0] == a[0] && (a + b)[1..] == a[1..] + b;
      assert Announcements(a + b) == head + Announcements(a[1..] + b);
      AnnouncementsAppend(a[1..], b);
      assert head + (Announcements(a[1..]) + Announcements(b)) == (head + Announcements(a[1..])) + Announcements(b);
    }
  }

  lemma {:induction false} LocalSendsNothing(a: seq<Effect>)
    requires Local(a)
    ensures Sends(a) == []
    decreases |a|
  {
    if |a| > 0 {
      LocalSendsNothing(a[1..]);
    }
  }

  // ---------------------------------------------------------------------
  // Properties of updateQuantity

  /** The loading toggles around a run of effects announce nothing. */
  lemma BracketAnnouncements(line: nat, request: Request, effects: seq<Effect>)
    ensures Announcements([EnableLoading(line), Send(request)] + effects + [DisableLoading(line)]) == Announcements(effects)
  {
    var opening := [EnableLoading(line), Send(request)];
    AnnouncementsAppend(opening + effects, [DisableLoading(line)]);
    AnnouncementsAppend(opening, effects);
    assert Announcements(opening) == [] by {
      assert opening[1..][1..] == [];
    }
    assert Announcements([DisableLoading(line)]) == [] by {
      assert [DisableLoading(line)][1..] == [];
    }
  }

  /** The loading toggles and the change request carry no announcement. */
  lemma {:induction false} AnnouncementsOfUpdate(env: Env, page: Page, line: nat, quantity: int, name: string, first: Reply, second: Reply)
    ensures Announcements(UpdateQuantity(env, page, line, quantity, name, first, second).effects)
         == Announcements(Pipeline(env, page, line, name, first, second).effects)
  {
    var stage := Pipeline(env, page, line, name, first, second);
    var request := ChangeLine(line, quantity, Keys(DrawerSections(page)));
    assert UpdateQuantity(env, page, line, quantity, name, first, second).effects
        == [EnableLoading(line), Send(request)] + stage.effects + [DisableLoading(line)];
    BracketAnnouncements(line, request, stage.effects);
  }

  /** The requests `updateQuantity` sends: the change request, then the
      bulk update removing the free samples exactly when the change reply
      calls for one, for the same sections. */
  lemma {:induction false} UpdateQuantityRequests(env: Env, page: Page, line: nat, quantity: int, name: string, first: Reply, second: Reply)
    ensures Sends(UpdateQuantity(env, page, line, quantity, name, first, second).effects)
         == [ChangeLine(line, quantity, Keys(DrawerSections(page)))]
            + (if first.Received? && FollowUp(env.threshold, first.body).Some?
               then [BulkUpdate(FollowUp(env.threshold, first.body).value, Keys(DrawerSections(page)))] else [])
  {
    var change := ChangeLine(line, quantity, Keys(DrawerSections(page)));
    var opening := [EnableLoading(line), Send(change)];
    var stage := Pipeline(env, page, line, name, first, second);
    SendsAppend(opening + stage.effects, [DisableLoading(line)]);
    SendsAppend(opening, stage.effects);
    assert Sends(opening) == [change] by {
      assert opening[1..] == [Send(change)] && opening[1..][1..] == [];
    }
    assert Sends([DisableLoading(line)]) == [] by {
      assert [DisableLoading(line)][1..] == [];
    }
  }

  /** A reply whose body reports `errors`: the quantity input reverts to
      its `value` attribute, the errors are announced for the line, and no
      section and no `is-empty` flag is touched. Without a quantity input
      the callback throws into the catch handler. */
  lemma ErrorsRevertInput(env: Env, page: Page, line: nat, quantity: int, name: string, first: Reply, second: Reply)
    requires Settled(env, first, second).Some? && HasErrors(Settled(env, first, second).value)
    ensures var r := UpdateQuantity(env, page, line, quantity, name, first, second);
            var input := QuantityInput(page, line);
            && (input.Some? ==> r.page == page[input.value := Revert(page[input.value])])
            && (input.Some? ==> Announcements(r.effects) == [Settled(env, first, second).value.errors.value])
            && (input.None? ==> r.page == Caught(env, page, []).page)
  {
    var st := Settled(env, first, second).value;
    UpdateQuantityPage(env, page, line, quantity, name, first, second);
    AnnouncementsOfUpdate(env, page, line, quantity, name, first, second);
    SettleErrors(env, page, line, name, st);
  }

  /** The settle step on a reply with `errors`. */
  lemma SettleErrors(env: Env, page: Page, line: nat, name: string, st: Response)
    requires HasErrors(st)
    ensures var r := Settle(env, page, line, name, st);
            var input := QuantityInput(page, line);
            && (input.Some? ==> r.page == page[input.value := Revert(page[input.value])])
            && (input.Some? ==> Announcements(r.effects) == [st.errors.value])
            && (input.None? ==> r.page == Caught(env, page, []).page)
  {
    if QuantityInput(page, line).Some? {
      var e := [Announce(line, st.errors.value)];
      AnnouncementsAppend(e, [Publish]);
      assert e[1..] == [] && [Publish][1..] == [];
    }
  }

  /** After a reply without `errors`, the items list, the footer and the
      drawer wrapper carry `is-empty` exactly when the cart has no items,
      and keep their other classes, on every path (also when the repaint
      throws later on). */
  lemma EmptyFlag(env: Env, page: Page, line: nat, quantity: int, name: string, first: Reply, second: Reply, h: Handle)
    requires Settled(env, first, second).Some? && !HasErrors(Settled(env, first, second).value)
    requires h in page && (h == ItemsHost || h == Footer || h == Wrapper)
    ensures var r := UpdateQuantity(env, page, line, quantity, name, first, second);
            && h in r.page
            && ("is-empty" in r.page[h].classes <==> Settled(env, first, second).value.itemCount == 0)
            && r.page[h].classes - {"is-empty"} == page[h].classes - {"is-empty"}
  {
    var st := Settled(env, first, second).value;
    RepaintKeepsMarks(env, page, line, name, st, h);
    SettleKeepsClasses(env, page, line, name, st, h);
  }

  /** The repaint's classes are those `MarkEmpty` set. */
  lemma RepaintKeepsMarks(env: Env, page: Page, line: nat, name: string, st: Response, h: Handle)
    requires h in page
    ensures h in Repaint(env, page, line, name, st).page
    ensures Repaint(env, page, line, name, st).page[h].classes == MarkEmpty(page, st.itemCount == 0)[h].classes
  {
    var marked := MarkEmpty(page, st.itemCount == 0);
    if st.sections.Some? {
      var painted := ApplySections(env.extract, DrawerSections(page), st.sections.value, marked);
      assert painted[h].classes == marked[h].classes;
    }
  }

  /** The catch handler changes no class. */
  lemma SettleKeepsClasses(env: Env, page: Page, line: nat, name: string, st: Response, h: Handle)
    requires !HasErrors(st) && h in page
    ensures h in Settle(env, page, line, name, st).page
    ensures Settle(env, page, line, name, st).page[h].classes == Repaint(env, page, line, name, st).page[h].classes
  {
    assert Paint(env, page, line, name, st) == Repaint(env, page, line, name, st);
  }

  /** The drawer section `i` as `Repaint` leaves it. */
  function SectionAfter(env: Env, page: Page, sections: map<string, string>, i: nat): Element
    requires i < 2 && ById(DrawerSections(page)[i].id) in page
  {
    var sec := DrawerSections(page)[i];
    if Applicable(sec, sections, page) then Refreshed(env.extract, sec, sections, page) else page[ById(sec.id)]
  }

  /** With `sections`, the repaint's page is the sections applied over
      the `is-empty` marks. */
  lemma RepaintPage(env: Env, page: Page, line: nat, name: string, st: Response)
    requires st.sections.Some?
    ensures Repaint(env, page, line, name, st).page
         == ApplySections(env.extract, DrawerSections(page), st.sections.value, MarkEmpty(page, st.itemCount == 0))
  {
  }

  lemma RepaintSections(env: Env, page: Page, line: nat, name: string, st: Response, i: nat)
    requires st.sections.Some?
    requires i < 2 && ById(DrawerSections(page)[i].id) in page
    ensures var p := Repaint(env, page, line, name, st);
            ById(DrawerSections(page)[i].id) in p.page
            && p.page[ById(DrawerSections(page)[i].id)] == SectionAfter(env, page, st.sections.value, i)
  {
    RepaintPage(env, page, line, name, st);
    var secs := DrawerSections(page);
    var marked := MarkEmpty(page, st.itemCount == 0);
    assert DistinctIds(secs);
    ApplySectionsAt(env.extract, secs, st.sections.value, marked, i);
    assert marked[ById(secs[i].id)] == page[ById(secs[i].id)];
  }

  /** After a reply without `errors` but with `sections`, each of the two
      drawer sections whose markup the reply carries and whose destination
      exists holds the markup extracted for it; the other one is left as
      it was. This holds also when the repaint throws afterwards. */
  lemma SectionsReconciled(env: Env, page: Page, line: nat, quantity: int, name: string, first: Reply, second: Reply, i: nat)
    requires Settled(env, first, second).Some? && !HasErrors(Settled(env, first, second).value)
    requires Settled(env, first, second).value.sections.Some?
    requires i < 2 && ById(DrawerSections(page)[i].id) in page
    ensures var r := UpdateQuantity(env, page, line, quantity, name, first, second);
            var sec := DrawerSections(page)[i];
            var sections := Settled(env, first, second).value.sections.value;
            && ById(sec.id) in r.page
            && (Applicable(sec, sections, page) ==> r.page[ById(sec.id)] == Refreshed(env.extract, sec, sections, page))
            && (!Applicable(sec, sections, page) ==> r.page[ById(sec.id)] == page[ById(sec.id)])
  {
    var st := Settled(env, first, second).value;
    UpdateQuantityPage(env, page, line, quantity, name, first, second);
    SettleSection(env, page, line, name, st, i);
  }

  /** The page `updateQuantity` ends with is the settled reply's. */
  lemma UpdateQuantityPage(env: Env, page: Page, line: nat, quantity: int, name: string, first: Reply, second: Reply)
    requires Settled(env, first, second).Some?
    ensures UpdateQuantity(env, page, line, quantity, name, first, second).page
         == Settle(env, page, line, name, Settled(env, first, second).value).page
  {
  }

  /** The drawer section `i` after the settle step. */
  lemma SettleSection(env: Env, page: Page, line: nat, name: string, st: Response, i: nat)
    requires !HasErrors(st) && st.sections.Some?
    requires i < 2 && ById(DrawerSections(page)[i].id) in page
    ensures var p := Settle(env, page, line, name, st).page;
            ById(DrawerSections(page)[i].id) in p
            && p[ById(DrawerSections(page)[i].id)] == SectionAfter(env, page, st.sections.value, i)
  {
    RepaintSections(env, page, line, name, st, i);
    SettleKeeps(env, page, line, name, st, ById(DrawerSections(page)[i].id));
  }

  /** Outside the error regions, the catch handler keeps what the repaint
      wrote. */
  lemma SettleKeeps(env: Env, page: Page, line: nat, name: string, st: Response, h: Handle)
    requires !HasErrors(st) && h in page
    requires h != ById("cart-errors") && h != ById("CartDrawer-CartErrors")
    ensures h in Settle(env, page, line, name, st).page
    ensures Settle(env, page, line, name, st).page[h] == Repaint(env, page, line, name, st).page[h]
  {
    assert Paint(env, page, line, name, st) == Repaint(env, page, line, name, st);
  }

  /** An input already showing the quantity the cart now holds gets no
      message: `parseInt(String(n)) === n`. */
  lemma {:induction false} NoMessageWhenInputAgrees(strings: Strings, rowsMatch: bool, n: nat)
    ensures LiveMessage(strings, rowsMatch, Some(n), NatToString(n)) == ""
  {
    ParseIntOfNatToString(n);
  }

  /** The input's displayed value, `''` when there is no input. */
  function InputValue(page: Page, line: nat): string {
    var input := QuantityInput(page, line);
    if input.Some? then page[input.value].value else ""
  }

  /** One announcement between effects that announce nothing. */
  lemma AnnouncedOnce(hooks: seq<Effect>, line: nat, message: string, focus: seq<Effect>)
    requires forall i :: 0 <= i < |hooks| ==> !hooks[i].Announce?
    requires forall i :: 0 <= i < |focus| ==> focus[i].Focus?
    ensures Announcements(hooks + [Announce(line, message)] + focus + [Publish]) == [message]
  {
    NoAnnouncements(hooks);
    NoAnnouncements(focus);
    NoAnnouncements([Publish]);
    AnnouncementsAppend(hooks, [Announce(line, message)]);
    AnnouncementsAppend(hooks + [Announce(line, message)], focus);
    AnnouncementsAppend(hooks + [Announce(line, message)] + focus, [Publish]);
    assert Announcements([Announce(line, message)]) == [message] by {
      assert [Announce(line, message)][1..] == [];
    }
  }

  /** The repaint that completes: hooks, the message, and the focus. */
  lemma RepaintEffects(env: Env, page: Page, line: nat, name: string, st: Response)
    requires st.sections.Some?
    requires !(env.probe.rowsBefore == |st.items| && QuantityInput(page, line).None?)
    ensures var p := Repaint(env, page, line, name, st);
            && !p.threw
            && p.effects == Hooks(Wrapper in page, env.tooltipReinit)
                            + [Announce(line, LiveMessage(env.strings, env.probe.rowsBefore == |st.items|, UpdatedValue(st, line), InputValue(page, line)))]
                            + FocusEffects(env.probe, st, line, name, Wrapper in page)
  {
  }

  lemma SettleAnnouncement(env: Env, page: Page, line: nat, name: string, st: Response)
    requires !HasErrors(st) && st.sections.Some?
    requires !(env.probe.rowsBefore == |st.items| && QuantityInput(page, line).None?)
    ensures Announcements(Settle(env, page, line, name, st).effects)
            == [LiveMessage(env.strings, env.probe.rowsBefore == |st.items|, UpdatedValue(st, line), InputValue(page, line))]
  {
    var message := LiveMessage(env.strings, env.probe.rowsBefore == |st.items|, UpdatedValue(st, line), InputValue(page, line));
    var hooks := Hooks(Wrapper in page, env.tooltipReinit);
    var focus := FocusEffects(env.probe, st, line, name, Wrapper in page);
    SettleEffects(env, page, line, name, st);
    AnnouncedOnce(hooks, line, message, focus);
  }

  /** A repaint that completes is followed only by the publish. */
  lemma SettleEffects(env: Env, page: Page, line: nat, name: string, st: Response)
    requires !HasErrors(st) && st.sections.Some?
    requires !(env.probe.rowsBefore == |st.items| && QuantityInput(page, line).None?)
    ensures Settle(env, page, line, name, st).effects
         == Hooks(Wrapper in page, env.tooltipReinit)
            + [Announce(line, LiveMessage(env.strings, env.probe.rowsBefore == |st.items|, UpdatedValue(st, line), InputValue(page, line)))]
            + FocusEffects(env.probe, st, line, name, Wrapper in page)
            + [Publish]
  {
    RepaintEffects(env, page, line, name, st);
    assert Paint(env, page, line, name, st) == Repaint(env, page, line, name, st);
  }

  /** On the path where the repaint completes, exactly one announcement is
      made: the live-region message for the line. */
  lemma LiveMessageAnnounced(env: Env, page: Page, line: nat, quantity: int, name: string, first: Reply, second: Reply)
    requires Settled(env, first, second).Some? && !HasErrors(Settled(env, first, second).value)
    requires Settled(env, first, second).value.sections.Some?
    requires !(env.probe.rowsBefore == |Settled(env, first, second).value.items| && QuantityInput(page, line).None?)
    ensures var st := Settled(env, first, second).value;
            Announcements(UpdateQuantity(env, page, line, quantity, name, first, second).effects)
            == [LiveMessage(env.strings, env.probe.rowsBefore == |st.items|, UpdatedValue(st, line), InputValue(page, line))]
  {
    AnnouncementsOfUpdate(env, page, line, quantity, name, first, second);
    SettleAnnouncement(env, page, line, name, Settled(env, first, second).value);
  }

  lemma {:induction false} NoAnnouncements(a: seq<Effect>)
    requires forall i :: 0 <= i < |a| ==> !a[i].Announce?
    ensures Announcements(a) == []
    decreases |a|
  {
    if |a| > 0 {
      NoAnnouncements(a[1..]);
    }
  }

  /** The handles a reply without `errors` may change: the three `is-empty`
      holders, the two section destinations and the two error regions. */
  predicate Touched(h: Handle) {
    h == ItemsHost || h == Footer || h == Wrapper || h == ById(DrawerId) || h == ById(BubbleId)
    || h == ById("cart-errors") || h == ById("CartDrawer-CartErrors")
  }

  lemma RepaintFrame(env: Env, page: Page, line: nat, name: string, st: Response, h: Handle)
    requires h in page && !Touched(h)
    ensures var p := Repaint(env, page, line, name, st);
            h in p.page && p.page[h] == page[h]
  {
    var marked := MarkEmpty(page, st.itemCount == 0);
    if st.sections.Some? {
      var secs := DrawerSections(page);
      assert !Targets(secs, st.sections.value, marked, h) by {
        forall j | 0 <= j < |secs| ensures h != ById(secs[j].id) {
        }
      }
    }
  }

  /** After a reply without `errors`, no element outside the `is-empty`
      holders, the two section destinations and the error regions changes. */
  lemma NothingElseChanges(env: Env, page: Page, line: nat, quantity: int, name: string, first: Reply, second: Reply, h: Handle)
    requires Settled(env, first, second).Some? && !HasErrors(Settled(env, first, second).value)
    requires h in page && !Touched(h)
    ensures var r := UpdateQuantity(env, page, line, quantity, name, first, second);
            h in r.page && r.page[h] == page[h]
  {
    RepaintFrame(env, page, line, name, Settled(env, first, second).value, h);
  }

  /** A rejected change request: spinners hidden, the generic error shown
      in the error region, nothing repainted, and loading ended. */
  lemma RejectedShowsError(env: Env, page: Page, line: nat, quantity: int, name: string, second: Reply)
    ensures var r := UpdateQuantity(env, page, line, quantity, name, Rejected, second);
            && r.effects == [EnableLoading(line), Send(ChangeLine(line, quantity, Keys(DrawerSections(page)))), HideSpinners, DisableLoading(line)]
            && r.page.Keys == page.Keys
            && (ErrorRegion(page).Some? ==> r.page[ErrorRegion(page).value].inner == env.strings.error)
            && (forall h :: h in page && h != ById("cart-errors") && h != ById("CartDrawer-CartErrors") ==> r.page[h] == page[h])
  {
  }

  /** The HTTP status of the change reply is only logged: two replies with
      the same body lead to the same outcome. */
  lemma StatusIgnored(env: Env, page: Page, line: nat, quantity: int, name: string, s1: int, s2: int, body: Response, second: Reply)
    ensures UpdateQuantity(env, page, line, quantity, name, Received(s1, body), second)
         == UpdateQuantity(env, page, line, quantity, name, Received(s2, body), second)
  {
  }

  // ---------------------------------------------------------------------
  // CartQuantityInput.onButtonClick

  /** A click on a drawer quantity button: the button's `name`, the input's
      value before the click, whether the control sits in a `tr.cart-item`
      row, whether that row has a `cart-remove-button button`, whether the
      control sits in `cart-drawer-items`, and the input's `data-index`. */
  datatype ButtonClick = ButtonClick(
    button: string,
    previousValue: string,
    inRow: bool,
    hasRemoveButton: bool,
    inItems: bool,
    index: Option<string>)

  /** What the click does: click the row's remove button, call
      `updateQuantity(index, 0, event)` with the raw `data-index` string, or
      fall through to the inherited stepper. */
  datatype ButtonAction = ClickRemoveButton | UpdateToZero(index: string) | StepDefault

  /** The minus button on an input reading 1, inside a cart row. */
  predicate RemovesLine(c: ButtonClick) {
    c.button == "minus" && ParseInt(c.previousValue) == Some(1) && c.inRow
  }

  function OnButtonClick(c: ButtonClick): (r: ButtonAction)
    ensures r.ClickRemoveButton? <==> RemovesLine(c) && c.hasRemoveButton
    ensures r.UpdateToZero? <==> RemovesLine(c) && !c.hasRemoveButton && c.inItems && c.index.Some? && Truthy(c.index.value)
    ensures r.UpdateToZero? ==> Some(r.index) == c.index
    ensures !RemovesLine(c) ==> r == StepDefault
  {
    if c.button == "minus" && ParseInt(c.previousValue) == Some(1) && c.inRow then
      if c.hasRemoveButton then ClickRemoveButton
      else if c.inItems && c.index.Some? && Truthy(c.index.value) then UpdateToZero(c.index.value)
      else StepDefault
    else StepDefault
  }

  /** With the input showing `String(n)`, minus removes the line instead of
      stepping exactly when `n` is 1. */
  lemma {:induction false} MinusAtOneRemoves(c: ButtonClick, n: nat)
    requires c.button == "minus" && c.inRow && c.hasRemoveButton && c.previousValue == NatToString(n)
    ensures OnButtonClick(c) == ClickRemoveButton <==> n == 1
  {
    ParseIntOfNatToString(n);
  }
}
