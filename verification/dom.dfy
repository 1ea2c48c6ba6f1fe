/** An abstract document: elements addressed by id or by tag name, each
    holding its markup, the markup of the descendants the scripts query by
    selector, its class list, its attributes and (for inputs) its value. */
module Dom {
  import opened Js

  /** How a script reaches an element: `document.getElementById(id)`, or
      the first match of `document.querySelector(selector)`, such as the
      custom element `cart-drawer`. */
  datatype Handle = ById(id: string) | Query(selector: string)

  /** `parts[sel]` is the markup of the first descendant matching `sel`;
      a selector absent from `parts` matches nothing inside the element. */
  datatype Element = Element(
    inner: string,
    parts: map<string, string>,
    classes: set<string>,
    attrs: map<string, string>,
    value: string)

  type Page = map<Handle, Element>

  /** An element with the given markup and nothing else. */
  function Plain(inner: string): Element {
    Element(inner, map[], {}, map[], "")
  }

  /** `classList.toggle(c, on)`. */
  function SetClass(e: Element, c: string, on: bool): (r: Element)
    ensures (c in r.classes) == on
    ensures r.classes - {c} == e.classes - {c}
    ensures r.inner == e.inner && r.parts == e.parts && r.attrs == e.attrs && r.value == e.value
  {
    e.(classes := if on then e.classes + {c} else e.classes - {c})
  }

  /** Toggles class `c` on the element `h` when the page has one. */
  function SetClassOn(p: Page, h: Handle, c: string, on: bool): (r: Page)
    ensures r.Keys == p.Keys
    ensures h in p ==> r[h] == SetClass(p[h], c, on)
    ensures forall k :: k in p && k != h ==> r[k] == p[k]
  {
    if h in p then p[h := SetClass(p[h], c, on)] else p
  }

  /** `el.innerHTML = content` on the descendant matching `selector`, else
      on the element itself (the `querySelector(sel) || el` idiom). Markup
      written into the element itself is not re-indexed by selector. */
  function WriteTarget(e: Element, selector: string, content: string): (r: Element)
    ensures selector in e.parts ==> r == e.(parts := e.parts[selector := content])
    ensures selector !in e.parts ==> r.inner == content && r.parts == map[]
    ensures r.classes == e.classes && r.attrs == e.attrs && r.value == e.value
  {
    if selector in e.parts then e.(parts := e.parts[selector := content])
    else e.(inner := content, parts := map[])
  }

  /** `el.textContent = text`, or `el.innerHTML = markup` written on the
      element itself: the model does not tell text from markup. */
  function SetText(e: Element, text: string): (r: Element)
    ensures r.inner == text && r.parts == map[]
    ensures r.classes == e.classes && r.attrs == e.attrs && r.value == e.value
  {
    e.(inner := text, parts := map[])
  }

  /** Sets `textContent` of the element `h` when the page has one. */
  function SetTextOn(p: Page, h: Handle, text: string): (r: Page)
    ensures r.Keys == p.Keys
    ensures h in p ==> r[h] == SetText(p[h], text)
    ensures forall k :: k in p && k != h ==> r[k] == p[k]
  {
    if h in p then p[h := SetText(p[h], text)] else p
  }

  /** The element's attribute `name`, `None` when it is not set. */
  function Attr(e: Element, name: string): Option<string> {
    if name in e.attrs then Some(e.attrs[name]) else None
  }
}
