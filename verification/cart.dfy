/** The cart API's data as the drawer scripts see it: line items, the parsed
    reply of a cart endpoint, the requests the scripts send, and the section
    descriptors that say which page regions a reply's markup refreshes. */
module Cart {
  import opened Js
  import opened Dom

  /** One cart line as returned by the cart endpoints. A `null`
      `properties` object reads as the empty map. */
  datatype Item = Item(
    key: string,
    id: nat,
    quantity: nat,
    productType: string,
    properties: map<string, string>)

  /** The parsed JSON body of a cart endpoint reply. `status` and `message`
      are the body's own fields, present on the platform's error bodies (a
      422 "sold out" reply); `sections` maps a section key to its markup. */
  datatype Response = Response(
    status: Option<int>,
    message: Option<string>,
    itemCount: nat,
    totalPrice: int,
    items: seq<Item>,
    sections: Option<map<string, string>>,
    errors: Option<string>)

  /** What a `fetch(...)` chain delivers to the next `.then`: a parsed body
      with the HTTP status, or a rejection (network failure, or a body that
      is not JSON) which lands in `.catch`. */
  datatype Reply = Rejected | Received(httpStatus: int, body: Response)

  /** `response.ok`. */
  predicate HttpOk(status: int) {
    200 <= status <= 299
  }

  /** `parsedState.errors` is truthy. */
  predicate HasErrors(r: Response) {
    r.errors.Some? && Truthy(r.errors.value)
  }

  /** The bodies the scripts send. `sections_url` (the page path) is left
      out: it is the same constant in every request. */
  datatype Request =
    | ChangeLine(line: nat, quantity: int, sections: seq<string>)
    | ChangeById(id: string, quantity: int, sections: seq<string>)
    | ChangePlan(planLine: Option<int>, sellingPlan: string, sections: seq<string>)
    | Add(variant: string, plan: Option<string>, sections: seq<string>)
    | BulkUpdate(updates: map<string, int>, sections: seq<string>)

  // ---------------------------------------------------------------------
  // Section descriptors

  /** `{ id, section, selector }`: the reply's markup under `key` refreshes
      the descendant of element `id` matching `selector`. */
  datatype Section = Section(id: string, key: string, selector: string)

  const DrawerId := "CartDrawer"
  const BubbleId := "cart-icon-bubble"
  const DefaultSectionId := "cart-drawer"

  /** The drawer's section key: the `data-id` of `#CartDrawer`, falling
      back to `'cart-drawer'` when the element or the attribute is missing
      or empty. */
  function SectionId(page: Page): (r: string)
    ensures |r| > 0
    ensures ById(DrawerId) in page && Attr(page[ById(DrawerId)], "data-id").Some?
            && Truthy(Attr(page[ById(DrawerId)], "data-id").value)
            ==> r == Attr(page[ById(DrawerId)], "data-id").value
    ensures r != DefaultSectionId ==> ById(DrawerId) in page && Attr(page[ById(DrawerId)], "data-id") == Some(r)
  {
    var fromElement :=
      if ById(DrawerId) in page then Attr(page[ById(DrawerId)], "data-id").GetOr("") else "";
    if Truthy(fromElement) then fromElement else DefaultSectionId
  }

  /** `getSectionsToRender()` of the drawer's items list and of the sample,
      recommendation and subscription controls. */
  function DrawerSections(page: Page): (r: seq<Section>)
    ensures |r| == 2
    ensures r[0] == Section(DrawerId, SectionId(page), ".drawer__inner")
    ensures r[1] == Section(BubbleId, BubbleId, ".shopify-section")
  {
    [Section(DrawerId, SectionId(page), ".drawer__inner"),
     Section(BubbleId, BubbleId, ".shopify-section")]
  }

  /** `sections.map((section) => section.section)`. */
  function Keys(secs: seq<Section>): (r: seq<string>)
    ensures |r| == |secs|
    ensures forall i :: 0 <= i < |secs| ==> r[i] == secs[i].key
  {
    seq(|secs|, i requires 0 <= i < |secs| => secs[i].key)
  }

  // ---------------------------------------------------------------------
  // Free samples

  /** A line the threshold rule removes: product type `'Sample'`, or the
      line property `_sample` equal to the string `'true'`. */
  predicate IsSample(it: Item) {
    it.productType == "Sample" || ("_sample" in it.properties && it.properties["_sample"] == "true")
  }

  /** `item.key || item.id`, as an object key (a string). */
  function UpdateKey(it: Item): string {
    if Truthy(it.key) then it.key else NatToString(it.id)
  }

  /** The `update_data` object built by the `forEach` over the sample
      lines: every sample's key mapped to 0, and nothing else. */
  function SampleUpdates(items: seq<Item>): (m: map<string, int>)
    ensures forall k :: k in m ==> m[k] == 0
    ensures forall k :: k in m ==> exists i :: 0 <= i < |items| && IsSample(items[i]) && UpdateKey(items[i]) == k
    ensures forall i :: 0 <= i < |items| && IsSample(items[i]) ==> UpdateKey(items[i]) in m
    decreases |items|
  {
    if |items| == 0 then map[]
    else
      var m := SampleUpdates(items[..|items| - 1]);
      var it := items[|items| - 1];
      if IsSample(it) then m[UpdateKey(it) := 0] else m
  }

  /** `parseFloat(cartDrawer.dataset.threshold)`, or `null` when there is
      no `<cart-drawer>`. */
  datatype Threshold = NoDrawer | NotANumber | Num(amount: real)

  /** JavaScript truthiness of the threshold: `null`, `NaN` and 0 are falsy. */
  predicate ThresholdSet(t: Threshold) {
    t.Num? && t.amount != 0.0
  }

  predicate HasSample(items: seq<Item>) {
    exists i :: 0 <= i < |items| && IsSample(items[i])
  }

  /** The follow-up bulk update `updateQuantity` sends after the change
      reply, if any: only when the threshold is set, the cart total is below
      it and some line is a sample. */
  function FollowUp(t: Threshold, body: Response): (r: Option<map<string, int>>)
    ensures r.Some? <==> ThresholdSet(t) && (body.totalPrice as real) < t.amount && HasSample(body.items)
    ensures r.Some? ==> |r.value| > 0
    ensures r.Some? ==> forall k :: k in r.value ==> r.value[k] == 0
    ensures r.Some? ==> forall k :: k in r.value ==>
              exists i :: 0 <= i < |body.items| && IsSample(body.items[i]) && UpdateKey(body.items[i]) == k
    ensures r.Some? ==> forall i :: 0 <= i < |body.items| && IsSample(body.items[i]) ==> UpdateKey(body.items[i]) in r.value
  {
    if ThresholdSet(t) && (body.totalPrice as real) < t.amount && HasSample(body.items) then
      var m := SampleUpdates(body.items);
      var i :| 0 <= i < |body.items| && IsSample(body.items[i]);
      assert UpdateKey(body.items[i]) in m;
      Some(m)
    else None
  }
}
