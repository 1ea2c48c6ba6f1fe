/** `FragranceFilter`: a set of active fragrance names toggled by swatches
    (or by the URL's `filter` parameter), product cards shown exactly when
    one of their fragrances is active, and a modal opened by a swatch or by
    the URL's `modal` parameter. */
module FragranceFilter {
  import opened Js

  /** A filter swatch: the text of its `.nue-fragrance-filter__label`
      (`None` without one), its `data-open-modal`, and its `active` class. */
  datatype Swatch = Swatch(labelText: Option<string>, openModal: Option<string>, active: bool)

  /** A `.card-product-nue__swatch-item` of a card: the text of its label
      (`None` without one) and its `active` class. */
  datatype CardItem = CardItem(labelText: Option<string>, active: bool)

  /** A product card: the texts of its swatch labels, its swatch items,
      `data-fragrances` as written by `prepareProductCards`, whether it
      sits in an `li`, and whether that `li` is shown. */
  datatype Card = Card(labels: seq<string>, items: seq<CardItem>, fragrances: seq<string>, inListItem: bool, shown: bool)

  /** The swatches, the cards, `activeFilters`, whether the modal exists,
      and whether it is open (`display: flex`). */
  datatype Filter = Filter(swatches: seq<Swatch>, cards: seq<Card>, active: set<string>, hasModal: bool, modalOpen: bool)

  /** `openModal()`: only when the modal exists. */
  function OpenModal(f: Filter): (r: Filter)
    ensures r.modalOpen == (f.modalOpen || f.hasModal)
    ensures r.(modalOpen := f.modalOpen) == f
  {
    if f.hasModal then f.(modalOpen := true) else f
  }

  /** `closeModal()`: also only when the modal exists. */
  function CloseModal(f: Filter): (r: Filter)
    ensures r.modalOpen == (f.modalOpen && !f.hasModal)
    ensures r.(modalOpen := f.modalOpen) == f
  {
    if f.hasModal then f.(modalOpen := false) else f
  }

  /** `prepareProductCards()`: each card's trimmed label texts. */
  function Prepare(cards: seq<Card>): (r: seq<Card>)
    ensures |r| == |cards|
    ensures forall i :: 0 <= i < |r| ==> r[i] == cards[i].(fragrances := r[i].fragrances)
    ensures forall i :: 0 <= i < |r| ==> |r[i].fragrances| == |cards[i].labels|
    ensures forall i, k :: 0 <= i < |r| && 0 <= k < |cards[i].labels| ==> r[i].fragrances[k] == Trim(cards[i].labels[k])
  {
    seq(|cards|, i requires 0 <= i < |cards| =>
      cards[i].(fragrances := seq(|cards[i].labels|, k requires 0 <= k < |cards[i].labels| => Trim(cards[i].labels[k]))))
  }

  /** Some fragrance of the card is active. */
  predicate Matches(fragrances: seq<string>, active: set<string>) {
    exists k :: 0 <= k < |fragrances| && fragrances[k] in active
  }

  /** The items' `active` classes: on exactly for the labelled items whose
      trimmed label is active; unlabelled items are left alone. */
  function MarkItems(items: seq<CardItem>, active: set<string>): (r: seq<CardItem>)
    ensures |r| == |items|
    ensures forall k :: 0 <= k < |r| ==> r[k].labelText == items[k].labelText
    ensures forall k :: 0 <= k < |r| && items[k].labelText.Some? ==> (r[k].active <==> Trim(items[k].labelText.value) in active)
    ensures forall k :: 0 <= k < |r| && items[k].labelText.None? ==> r[k] == items[k]
  {
    seq(|items|, k requires 0 <= k < |items| =>
      if items[k].labelText.Some? then items[k].(active := Trim(items[k].labelText.value) in active) else items[k])
  }

  /** One card after `applyFilters()`. */
  function ApplyToCard(c: Card, active: set<string>): (r: Card)
    ensures r.items == MarkItems(c.items, active)
    ensures r.labels == c.labels && r.fragrances == c.fragrances && r.inListItem == c.inListItem
    ensures !c.inListItem ==> r.shown == c.shown
    ensures c.inListItem ==> (r.shown <==> |active| == 0 || Matches(c.fragrances, active))
  {
    var shown := if !c.inListItem then c.shown else |active| == 0 || Matches(c.fragrances, active);
    c.(items := MarkItems(c.items, active), shown := shown)
  }

  /** `applyFilters()`: every card's items marked, and every card in an
      `li` shown when no filter is active or when it matches one. */
  function ApplyFilters(f: Filter): (r: Filter)
    ensures |r.cards| == |f.cards|
    ensures forall i :: 0 <= i < |r.cards| ==> r.cards[i] == ApplyToCard(f.cards[i], f.active)
    ensures r.swatches == f.swatches && r.active == f.active && r.modalOpen == f.modalOpen && r.hasModal == f.hasModal
  {
    f.(cards := seq(|f.cards|, i requires 0 <= i < |f.cards| => ApplyToCard(f.cards[i], f.active)))
  }

  /** The swatch's trimmed label, `None` when missing or empty. */
  function Title(s: Swatch): (r: Option<string>)
    ensures r.Some? ==> Truthy(r.value) && s.labelText.Some? && r.value == Trim(s.labelText.value)
    ensures r.None? ==> s.labelText.None? || !Truthy(Trim(s.labelText.value))
  {
    if s.labelText.Some? && Truthy(Trim(s.labelText.value)) then Some(Trim(s.labelText.value)) else None
  }

  /** `toggleFilter(swatch)`: the title leaves the set if present and joins
      it otherwise, the swatch's `active` class following, then the filters
      are re-applied. A swatch without a title changes nothing. */
  function ToggleFilter(f: Filter, i: nat): (r: Filter)
    requires i < |f.swatches|
    ensures Title(f.swatches[i]).None? ==> r == f
    ensures Title(f.swatches[i]).Some? ==>
              var t := Title(f.swatches[i]).value;
              && r.active == (if t in f.active then f.active - {t} else f.active + {t})
              && |r.swatches| == |f.swatches|
              && r.swatches[i] == f.swatches[i].(active := t in r.active)
              && (forall j :: 0 <= j < |f.swatches| && j != i ==> r.swatches[j] == f.swatches[j])
              && |r.cards| == |f.cards|
              && (forall k :: 0 <= k < |f.cards| ==> r.cards[k] == ApplyToCard(f.cards[k], r.active))
              && r.hasModal == f.hasModal && r.modalOpen == f.modalOpen
              && r == ApplyFilters(r)
  {
    match Title(f.swatches[i])
    case None => f
    case Some(t) =>
      var on := t !in f.active;
      var toggled := f.(active := if on then f.active + {t} else f.active - {t},
                        swatches := f.swatches[i := f.swatches[i].(active := on)]);
      ApplyFiltersIdempotent(toggled);
      ApplyFilters(toggled)
  }

  /** Applying the filters twice is applying them once: the cards then
      reflect the active set. */
  lemma ApplyFiltersIdempotent(f: Filter)
    ensures ApplyFilters(ApplyFilters(f)) == ApplyFilters(f)
  {
    var r := ApplyFilters(f);
    forall c | 0 <= c < |r.cards| ensures ApplyToCard(r.cards[c], r.active) == r.cards[c] {
      assert MarkItems(MarkItems(f.cards[c].items, f.active), f.active) == MarkItems(f.cards[c].items, f.active);
    }
    assert ApplyFilters(r).cards == r.cards;
  }

  /** The swatch's class agrees with the set. */
  predicate InStep(f: Filter, i: nat)
    requires i < |f.swatches|
  {
    Title(f.swatches[i]).Some? ==> (f.swatches[i].active <==> Title(f.swatches[i]).value in f.active)
  }

  /** Toggling the same swatch twice restores the active set, and the
      swatch's class when it was in step with the set. */
  lemma ToggleTwiceRestores(f: Filter, i: nat)
    requires i < |f.swatches|
    ensures ToggleFilter(ToggleFilter(f, i), i).active == f.active
    ensures InStep(f, i) ==> ToggleFilter(ToggleFilter(f, i), i).swatches == f.swatches
  {
    var g := ToggleFilter(f, i);
    if Title(f.swatches[i]).Some? {
      assert g.swatches[i].labelText == f.swatches[i].labelText;
      var t := Title(f.swatches[i]).value;
      var h := ToggleFilter(g, i);
      if InStep(f, i) {
        assert h.swatches[i] == f.swatches[i];
        assert h.swatches == f.swatches;
      }
    }
  }

  /** `handleSwatchClick(e, swatch)`: a swatch with `data-open-modal="true"`
      opens the modal and leaves the filters alone; any other toggles. */
  function HandleSwatchClick(f: Filter, i: nat): (r: Filter)
    requires i < |f.swatches|
    ensures f.swatches[i].openModal == Some("true") ==> r == OpenModal(f) && r.active == f.active
    ensures f.swatches[i].openModal != Some("true") ==> r == ToggleFilter(f, i)
  {
    if f.swatches[i].openModal == Some("true") then OpenModal(f) else ToggleFilter(f, i)
  }

  /** The swatches the URL's `filter` value activates. */
  function ActivateMatching(swatches: seq<Swatch>, name: string): (r: seq<Swatch>)
    ensures |r| == |swatches|
    ensures forall j :: 0 <= j < |r| ==>
              r[j] == (if swatches[j].labelText.Some? && Trim(swatches[j].labelText.value) == name
                       then swatches[j].(active := true) else swatches[j])
  {
    seq(|swatches|, j requires 0 <= j < |swatches| =>
      if swatches[j].labelText.Some? && Trim(swatches[j].labelText.value) == name then swatches[j].(active := true) else swatches[j])
  }

  predicate SomeLabelIs(swatches: seq<Swatch>, name: string) {
    exists j :: 0 <= j < |swatches| && swatches[j].labelText.Some? && Trim(swatches[j].labelText.value) == name
  }

  /** `checkURLParams()` with the `modal` and `filter` parameters: the modal
      opens for `'true'` or `'open'`; a non-empty filter name activates the
      swatches whose trimmed label equals it and joins the set when one
      does; the filters are applied only if the set is then non-empty. */
  function CheckURLParams(f: Filter, modal: Option<string>, filter: Option<string>): (r: Filter)
    ensures r.hasModal == f.hasModal
    ensures r.modalOpen == (f.modalOpen || (f.hasModal && (modal == Some("true") || modal == Some("open"))))
    ensures |r.cards| == |f.cards|
    ensures filter.Some? && Truthy(filter.value) && |r.active| > 0 ==>
              forall k :: 0 <= k < |f.cards| ==> r.cards[k] == ApplyToCard(f.cards[k], r.active)
    ensures |r.active| == 0 ==> r.cards == f.cards
    ensures filter.None? || !Truthy(filter.value) ==> r.active == f.active && r.swatches == f.swatches && r.cards == f.cards
    ensures filter.Some? && Truthy(filter.value) ==>
              && r.active == (if SomeLabelIs(f.swatches, filter.value) then f.active + {filter.value} else f.active)
              && r.swatches == ActivateMatching(f.swatches, filter.value)
              && r.cards == (if |r.active| > 0 then ApplyFilters(r).cards else f.cards)
  {
    var withModal := if modal == Some("true") || modal == Some("open") then OpenModal(f) else f;
    if filter.None? || !Truthy(filter.value) then withModal
    else
      var name := filter.value;
      var active := if SomeLabelIs(f.swatches, name) then f.active + {name} else f.active;
      var marked := withModal.(active := active, swatches := ActivateMatching(f.swatches, name));
      if |active| > 0 then
        ApplyFiltersIdempotent(marked);
        ApplyFilters(marked)
      else marked
  }

  /** `new FragranceFilter()` and its `init()`: nothing at all without
      swatches or without cards (not even the URL's modal); otherwise the
      cards prepared and the URL parameters applied. */
  function Init(swatches: seq<Swatch>, cards: seq<Card>, hasModal: bool, modal: Option<string>, filter: Option<string>): (r: Filter)
    ensures |swatches| == 0 || |cards| == 0 ==> r == Filter(swatches, cards, {}, hasModal, false)
    ensures |swatches| > 0 && |cards| > 0 ==>
              r == CheckURLParams(Filter(swatches, Prepare(cards), {}, hasModal, false), modal, filter)
  {
    var f := Filter(swatches, cards, {}, hasModal, false);
    if |swatches| == 0 || |cards| == 0 then f
    else CheckURLParams(f.(cards := Prepare(cards)), modal, filter)
  }

  /** After init from a `filter` URL parameter, every card in an `li` is
      shown exactly when one of its trimmed swatch labels is that name,
      provided some swatch carries it; otherwise no card is touched. */
  lemma {:induction false} UrlFilterShowsMatches(swatches: seq<Swatch>, cards: seq<Card>, hasModal: bool, modal: Option<string>, name: string, i: nat)
    requires |swatches| > 0 && |cards| > 0 && Truthy(name) && i < |cards| && cards[i].inListItem
    ensures var r := Init(swatches, cards, hasModal, modal, Some(name));
            && |r.cards| == |cards|
            && (SomeLabelIs(swatches, name) ==>
                  (r.cards[i].shown <==> exists k :: 0 <= k < |cards[i].labels| && Trim(cards[i].labels[k]) == name))
            && (!SomeLabelIs(swatches, name) ==> r.cards[i].shown == cards[i].shown)
  {
    var prepared := Prepare(cards);
    var r := Init(swatches, cards, hasModal, modal, Some(name));
    if SomeLabelIs(swatches, name) {
      assert r.active == {name};
      assert r.cards[i] == ApplyToCard(prepared[i], {name});
      if r.cards[i].shown {
        var k :| 0 <= k < |prepared[i].fragrances| && prepared[i].fragrances[k] in {name};
        assert Trim(cards[i].labels[k]) == name;
      } else {
        forall k | 0 <= k < |cards[i].labels| ensures Trim(cards[i].labels[k]) != name {
          assert prepared[i].fragrances[k] == Trim(cards[i].labels[k]);
        }
      }
    } else {
      assert r.cards == prepared;
    }
  }
}
