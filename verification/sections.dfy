/** Section reconciliation: copying the markup a cart reply carries for each
    section into the live page, as `updateQuantity` and the `updateSections`
    of the sample and recommendation controls do it. */
module Sections {
  import opened Js
  import opened Dom
  import opened Cart

  /** `new DOMParser().parseFromString(html, 'text/html').querySelector(sel)`
      followed by `.innerHTML`; `None` when nothing matches. HTML parsing is
      not modelled, so every operation takes it as a parameter. */
  type Extractor = (string, string) -> Option<string>

  /** `getSectionInnerHTML(html, selector)`: `''` for missing markup or a
      selector that matches nothing. */
  function SectionInnerHTML(extract: Extractor, html: string, selector: string): string {
    if !Truthy(html) then "" else extract(html, selector).GetOr("")
  }

  /** The reply carries markup for the section and its destination exists. */
  predicate Applicable(sec: Section, sections: map<string, string>, page: Page) {
    sec.key in sections && Truthy(sections[sec.key]) && ById(sec.id) in page
  }

  /** The page after refreshing one section as the reconciliation loop does. */
  function Refreshed(extract: Extractor, sec: Section, sections: map<string, string>, page: Page): Element
    requires Applicable(sec, sections, page)
  {
    WriteTarget(page[ById(sec.id)], sec.selector, SectionInnerHTML(extract, sections[sec.key], sec.selector))
  }

  function ApplyOne(extract: Extractor, sec: Section, sections: map<string, string>, page: Page): (r: Page)
    ensures r.Keys == page.Keys
    ensures Applicable(sec, sections, page) ==> r[ById(sec.id)] == Refreshed(extract, sec, sections, page)
    ensures forall h :: h in page && (h != ById(sec.id) || !Applicable(sec, sections, page)) ==> r[h] == page[h]
    ensures forall h :: h in page ==> r[h].classes == page[h].classes && r[h].attrs == page[h].attrs
  {
    if Applicable(sec, sections, page) then page[ById(sec.id) := Refreshed(extract, sec, sections, page)]
    else page
  }

  /** Some section of `secs` rewrites the element `h`. */
  predicate Targets(secs: seq<Section>, sections: map<string, string>, page: Page, h: Handle) {
    exists i :: 0 <= i < |secs| && Applicable(secs[i], sections, page) && h == ById(secs[i].id)
  }

  predicate DistinctIds(secs: seq<Section>) {
    forall i, j :: 0 <= i < j < |secs| ==> secs[i].id != secs[j].id
  }

  /** A section of a prefix of `secs` is a section of `secs`. */
  lemma TargetsOfPrefix(secs: seq<Section>, n: nat, sections: map<string, string>, page: Page, h: Handle)
    requires n <= |secs|
    requires Targets(secs[..n], sections, page, h)
    ensures Targets(secs, sections, page, h)
  {
    var i :| 0 <= i < n && Applicable(secs[..n][i], sections, page) && h == ById(secs[..n][i].id);
    assert secs[i] == secs[..n][i];
  }

  /** The `forEach` over the sections: a section without markup in the reply
      or without a destination element is skipped and the others are still
      applied; no element that no applicable section names changes. */
  function ApplySections(extract: Extractor, secs: seq<Section>, sections: map<string, string>, page: Page): (r: Page)
    ensures r.Keys == page.Keys
    ensures forall h :: h in page && !Targets(secs, sections, page, h) ==> r[h] == page[h]
    ensures forall h :: h in page ==> r[h].classes == page[h].classes && r[h].attrs == page[h].attrs
    decreases |secs|
  {
    if |secs| == 0 then page
    else
      var n := |secs| - 1;
      var mid := ApplySections(extract, secs[..n], sections, page);
      assert forall h :: Targets(secs[..n], sections, page, h) ==> Targets(secs, sections, page, h) by {
        forall h | Targets(secs[..n], sections, page, h) ensures Targets(secs, sections, page, h) {
          TargetsOfPrefix(secs, n, sections, page, h);
        }
      }
      ApplyOne(extract, secs[n], sections, mid)
  }

  /** With distinct destination ids, every applicable section's destination
      ends up holding exactly the markup extracted for it: into the
      descendant its selector matches, else into the element itself. */
  lemma {:induction false} ApplySectionsWrites(extract: Extractor, secs: seq<Section>, sections: map<string, string>, page: Page, i: nat)
    requires DistinctIds(secs)
    requires i < |secs| && Applicable(secs[i], sections, page)
    ensures ApplySections(extract, secs, sections, page)[ById(secs[i].id)] == Refreshed(extract, secs[i], sections, page)
    decreases |secs|
  {
    var n := |secs| - 1;
    var mid := ApplySections(extract, secs[..n], sections, page);
    if i < n {
      assert secs[..n][i] == secs[i];
      assert DistinctIds(secs[..n]) by {
        forall a, b | 0 <= a < b < n ensures secs[..n][a].id != secs[..n][b].id {
          assert secs[..n][a] == secs[a] && secs[..n][b] == secs[b];
        }
      }
      ApplySectionsWrites(extract, secs[..n], sections, page, i);
      assert ById(secs[n].id) != ById(secs[i].id);
    } else {
      assert !Targets(secs[..n], sections, page, ById(secs[n].id)) by {
        forall j | 0 <= j < n ensures secs[..n][j].id != secs[n].id {
          assert secs[..n][j] == secs[j];
        }
      }
      assert mid[ById(secs[n].id)] == page[ById(secs[n].id)];
    }
  }

  /** Each section's destination after the loop: refreshed when the section
      applies, untouched otherwise. */
  lemma ApplySectionsAt(extract: Extractor, secs: seq<Section>, sections: map<string, string>, page: Page, i: nat)
    requires DistinctIds(secs)
    requires i < |secs| && ById(secs[i].id) in page
    ensures var r := ApplySections(extract, secs, sections, page);
            && ById(secs[i].id) in r
            && r[ById(secs[i].id)] == (if Applicable(secs[i], sections, page) then Refreshed(extract, secs[i], sections, page) else page[ById(secs[i].id)])
  {
    if Applicable(secs[i], sections, page) {
      ApplySectionsWrites(extract, secs, sections, page, i);
    } else {
      assert !Targets(secs, sections, page, ById(secs[i].id)) by {
        forall j | 0 <= j < |secs| && Applicable(secs[j], sections, page) ensures ById(secs[i].id) != ById(secs[j].id) {
        }
      }
    }
  }
}
