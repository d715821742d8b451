/**
 * An abstraction of the part of the page a view touches. Elements are
 * numbered in creation order; element 0 is the container the view was given.
 * Every other element was created from rendered markup and placed relative
 * to an earlier element (inside it at the end or the start, or next to it).
 * An element is in the document when it and every element it was placed
 * against are still attached.
 */
module Elements {
  import opened JsValues

  const InsertReplace := "replace"
  const InsertAppend := "append"
  const InsertPrepend := "prepend"
  const InsertBefore := "before"
  const InsertAfter := "after"

  datatype Placement =
    | Original
    | Appended(anchor: nat)
    | Prepended(anchor: nat)
    | Before(anchor: nat)
    | After(anchor: nat)

  datatype Element = Element(markup: string, placement: Placement, attached: bool)

  /** The elements created so far, and `root`, the index of the view's current `$el`. */
  datatype Dom = Dom(elements: seq<Element>, root: nat) {
    ghost predicate Valid() {
      && root < |elements|
      && forall i :: 0 <= i < |elements| ==> PlacedEarlier(elements[i].placement, i)
    }
  }

  predicate PlacedEarlier(p: Placement, i: nat) {
    !p.Original? ==> p.anchor < i
  }

  /** A page holding only the view's container, with the given content. */
  function Initial(content: string): (d: Dom)
    ensures d.Valid() && InDocument(d, d.root)
  {
    Dom([Element(content, Original, true)], 0)
  }

  /** Element `i` lies within the content of element `r`. */
  predicate Inside(d: Dom, i: nat, r: nat)
    decreases i
  {
    i < |d.elements| &&
    match d.elements[i].placement
    case Original => false
    case Appended(a) => a < i && (a == r || Inside(d, a, r))
    case Prepended(a) => a < i && (a == r || Inside(d, a, r))
    case Before(a) => a < i && Inside(d, a, r)
    case After(a) => a < i && Inside(d, a, r)
  }

  /** Element `i` is part of the document. */
  predicate InDocument(d: Dom, i: nat)
    decreases i
  {
    i < |d.elements| && d.elements[i].attached &&
    match d.elements[i].placement
    case Original => true
    case Appended(a) => a < i && InDocument(d, a)
    case Prepended(a) => a < i && InDocument(d, a)
    case Before(a) => a < i && InDocument(d, a)
    case After(a) => a < i && InDocument(d, a)
  }

  /** Two elements placed the same way and both attached, or both detached. */
  predicate SameAttachment(x: Element, y: Element) {
    x.placement == y.placement && x.attached == y.attached
  }

  /** Whether an element is in the document depends only on it and the elements created before it. */
  lemma {:induction false} InDocumentPrefix(d: Dom, e: Dom, i: nat)
    requires i < |d.elements| && i < |e.elements|
    requires forall j :: 0 <= j <= i ==> SameAttachment(d.elements[j], e.elements[j])
    ensures InDocument(d, i) <==> InDocument(e, i)
  {
    match d.elements[i].placement
    case Original =>
    case Appended(a) => if a < i { InDocumentPrefix(d, e, a); }
    case Prepended(a) => if a < i { InDocumentPrefix(d, e, a); }
    case Before(a) => if a < i { InDocumentPrefix(d, e, a); }
    case After(a) => if a < i { InDocumentPrefix(d, e, a); }
  }

  /** An element lies only within elements created before it. */
  lemma {:induction false} InsideIsLater(d: Dom, i: nat, r: nat)
    requires Inside(d, i, r)
    ensures r < i
  {
    match d.elements[i].placement
    case Appended(a) => if a != r { InsideIsLater(d, a, r); }
    case Prepended(a) => if a != r { InsideIsLater(d, a, r); }
    case Before(a) => InsideIsLater(d, a, r);
    case After(a) => InsideIsLater(d, a, r);
  }

  lemma NotInsideItself(d: Dom, r: nat)
    ensures !Inside(d, r, r)
  {
    if Inside(d, r, r) {
      InsideIsLater(d, r, r);
    }
  }

  /** Setting the root's content leaves the root in the document exactly when it was. */
  lemma SetHtmlKeepsRoot(d: Dom, html: string)
    requires d.Valid()
    ensures InDocument(SetHtml(d, html), d.root) <==> InDocument(d, d.root)
  {
    var r := SetHtml(d, html);
    forall j | 0 <= j <= d.root
      ensures SameAttachment(d.elements[j], r.elements[j])
    {
      if Inside(d, j, d.root) {
        InsideIsLater(d, j, d.root);
      }
    }
    InDocumentPrefix(d, r, d.root);
  }

  /** An element placed against a detached one, at any depth, is out of the document. */
  lemma {:induction false} InDocumentNeedsAnchor(d: Dom, i: nat, r: nat)
    requires Inside(d, i, r) && !InDocument(d, r)
    ensures !InDocument(d, i)
  {
    match d.elements[i].placement
    case Appended(a) => if a != r { InDocumentNeedsAnchor(d, a, r); }
    case Prepended(a) => if a != r { InDocumentNeedsAnchor(d, a, r); }
    case Before(a) => InDocumentNeedsAnchor(d, a, r);
    case After(a) => InDocumentNeedsAnchor(d, a, r);
  }

  /** `$el.html(html)`: the root's content becomes `html`; everything that was inside it is dropped. */
  function SetHtml(d: Dom, html: string): (r: Dom)
    requires d.Valid()
    ensures r.Valid() && r.root == d.root && |r.elements| == |d.elements|
    ensures r.elements[r.root] == d.elements[d.root].(markup := html)
    ensures forall i :: 0 <= i < |d.elements| && Inside(d, i, d.root) ==> !r.elements[i].attached
    ensures forall i :: 0 <= i < |d.elements| && i != d.root && !Inside(d, i, d.root) ==> r.elements[i] == d.elements[i]
  {
    var els := seq(|d.elements|, i requires 0 <= i < |d.elements| =>
                 if i == d.root then d.elements[i].(markup := html)
                 else if Inside(d, i, d.root) then d.elements[i].(attached := false)
                 else d.elements[i]);
    NotInsideItself(d, d.root);
    Dom(els, d.root)
  }

  /** Placing a new element made from `html` against the root, and making it the root (`setElement`). */
  function PlaceNew(d: Dom, html: string, p: Placement): (r: Dom)
    requires d.Valid() && !p.Original? && p.anchor == d.root
    ensures r.Valid() && r.root == |d.elements| && r.elements == d.elements + [Element(html, p, true)]
  {
    Dom(d.elements + [Element(html, p, true)], |d.elements|)
  }

  /** `$el.remove()`: the root element is taken out of the document. */
  function Detach(d: Dom): (r: Dom)
    requires d.Valid()
    ensures r.Valid() && r.root == d.root && |r.elements| == |d.elements|
    ensures !InDocument(r, r.root)
    ensures forall i :: 0 <= i < |d.elements| && i != d.root ==> r.elements[i] == d.elements[i]
  {
    Dom(d.elements[d.root := d.elements[d.root].(attached := false)], d.root)
  }

  /** The insert types for which `renderInsert` creates a new root element. */
  predicate CreatesElement(insertType: Value) {
    insertType in {Str(InsertAppend), Str(InsertPrepend), Str(InsertBefore), Str(InsertAfter)}
  }

  /**
   * The element change of `renderInsert` for non-empty markup, by
   * `templateInsertType`: "append" and "prepend" put a new element at the end
   * or the start of the root's content, "before" and "after" put it next to
   * the root, and in those four cases the new element becomes the root;
   * "replace" and every other value set the root's content.
   */
  function InsertTemplate(d: Dom, insertType: Value, html: string): (r: Dom)
    requires d.Valid()
    ensures r.Valid()
  {
    if insertType == Str(InsertAppend) then Placed(d, html, Appended(d.root))
    else if insertType == Str(InsertPrepend) then Placed(d, html, Prepended(d.root))
    else if insertType == Str(InsertBefore) then Placed(d, html, Before(d.root))
    else if insertType == Str(InsertAfter) then Placed(d, html, After(d.root))
    else
      SetHtmlKeepsRoot(d, html);
      SetHtml(d, html)
  }

  /**
   * The four element-creating insert types add one attached element with
   * the markup, placed as the type says against the old root, and make it
   * the root; the others set the root's content. Either way the root is in
   * the document exactly when the old one was.
   */
  lemma InsertTemplateOutcome(d: Dom, insertType: Value, html: string)
    requires d.Valid()
    ensures var r := InsertTemplate(d, insertType, html);
            && (CreatesElement(insertType) ==>
                  && r.root == |d.elements|
                  && r.elements[..|d.elements|] == d.elements
                  && r.elements[r.root].markup == html && r.elements[r.root].attached)
            && (insertType == Str(InsertAppend) ==> r.elements[r.root].placement == Appended(d.root))
            && (insertType == Str(InsertPrepend) ==> r.elements[r.root].placement == Prepended(d.root))
            && (insertType == Str(InsertBefore) ==> r.elements[r.root].placement == Before(d.root))
            && (insertType == Str(InsertAfter) ==> r.elements[r.root].placement == After(d.root))
            && (!CreatesElement(insertType) ==>
                  && r.root == d.root && |r.elements| == |d.elements|
                  && r.elements[r.root].markup == html)
            && (InDocument(r, r.root) <==> InDocument(d, d.root))
  {
    if !CreatesElement(insertType) {
      SetHtmlKeepsRoot(d, html);
    }
  }

  /** `PlaceNew`, with the fact that the new root is in the document exactly when the old one was. */
  function Placed(d: Dom, html: string, p: Placement): (r: Dom)
    requires d.Valid() && !p.Original? && p.anchor == d.root
    ensures r == PlaceNew(d, html, p)
    ensures InDocument(r, r.root) <==> InDocument(d, d.root)
  {
    var r := PlaceNew(d, html, p);
    assert forall j :: 0 <= j <= d.root ==> r.elements[j] == d.elements[j];
    InDocumentPrefix(d, r, d.root);
    r
  }

  /**
   * `removeElementFromDom`: "append", "prepend" and "before" take the root
   * out of the document; "replace", "after" and every other value only
   * empty the root's content.
   */
  function RemoveElementFromDom(d: Dom, insertType: Value): (r: Dom)
    requires d.Valid()
    ensures r.Valid()
  {
    if insertType in {Str(InsertAppend), Str(InsertPrepend), Str(InsertBefore)} then Detach(d)
    else
      SetHtmlKeepsRoot(d, "");
      SetHtml(d, "")
  }

  /**
   * Either way everything that was inside the root leaves the document.
   * "append", "prepend" and "before" take the root itself out of the
   * document and leave every other element as it was; every other type
   * empties the root, which stays in the document exactly when it was. No
   * element is created or dropped.
   */
  lemma RemoveElementOutcome(d: Dom, insertType: Value)
    requires d.Valid()
    ensures var r := RemoveElementFromDom(d, insertType);
            && r.root == d.root && |r.elements| == |d.elements|
            && (forall i :: 0 <= i < |d.elements| && Inside(d, i, d.root) ==> !InDocument(r, i))
            && (insertType in {Str(InsertAppend), Str(InsertPrepend), Str(InsertBefore)} ==>
                  && !InDocument(r, r.root)
                  && forall i :: 0 <= i < |d.elements| && i != d.root ==> r.elements[i] == d.elements[i])
            && (insertType !in {Str(InsertAppend), Str(InsertPrepend), Str(InsertBefore)} ==>
                  && r.elements[r.root].markup == ""
                  && (InDocument(r, r.root) <==> InDocument(d, d.root)))
  {
    var r := RemoveElementFromDom(d, insertType);
    if insertType !in {Str(InsertAppend), Str(InsertPrepend), Str(InsertBefore)} {
      SetHtmlKeepsRoot(d, "");
    } else {
      forall i | 0 <= i < |d.elements| && Inside(d, i, d.root) ensures !InDocument(r, i) {
        InsideSamePlacement(d, r, i, d.root);
        InDocumentNeedsAnchor(r, i, d.root);
      }
    }
  }

  /** Whether an element lies within another depends only on how the elements were placed. */
  lemma {:induction false} InsideSamePlacement(d: Dom, e: Dom, i: nat, r: nat)
    requires |d.elements| == |e.elements|
    requires forall j :: 0 <= j < |d.elements| ==> d.elements[j].placement == e.elements[j].placement
    ensures Inside(d, i, r) <==> Inside(e, i, r)
    decreases i
  {
    if i < |d.elements| {
      match d.elements[i].placement
      case Original =>
      case Appended(a) => if a < i { InsideSamePlacement(d, e, a, r); }
      case Prepended(a) => if a < i { InsideSamePlacement(d, e, a, r); }
      case Before(a) => if a < i { InsideSamePlacement(d, e, a, r); }
      case After(a) => if a < i { InsideSamePlacement(d, e, a, r); }
    }
  }

  /**
   * For "append", "prepend" and "before", tearing down right after a
   * non-empty render takes the element the render created out of the
   * document and leaves every earlier element as it was.
   */
  lemma {:induction false} TeardownRemovesCreatedElement(d: Dom, insertType: Value, html: string)
    requires d.Valid()
    requires insertType in {Str(InsertAppend), Str(InsertPrepend), Str(InsertBefore)}
    ensures var r := RemoveElementFromDom(InsertTemplate(d, insertType, html), insertType);
            && r.root == |d.elements|
            && !InDocument(r, r.root)
            && forall i :: 0 <= i < |d.elements| ==> (InDocument(r, i) <==> InDocument(d, i))
  {
    var m := InsertTemplate(d, insertType, html);
    var r := RemoveElementFromDom(m, insertType);
    InsertTemplateOutcome(d, insertType, html);
    RemoveElementOutcome(m, insertType);
    forall i | 0 <= i < |d.elements|
      ensures InDocument(r, i) <==> InDocument(d, i)
    {
      assert forall j :: 0 <= j <= i ==> r.elements[j] == m.elements[j] == d.elements[j];
      InDocumentPrefix(r, d, i);
    }
  }

  /**
   * For "after", tearing down right after a non-empty render leaves the
   * element the render created in the document, emptied, next to the
   * element the view started from.
   */
  lemma AfterTeardownKeepsCreatedElement(d: Dom, html: string)
    requires d.Valid()
    ensures var r := RemoveElementFromDom(InsertTemplate(d, Str(InsertAfter), html), Str(InsertAfter));
            && r.root == |d.elements|
            && r.elements[r.root].markup == ""
            && r.elements[r.root].placement == After(d.root)
            && (InDocument(r, r.root) <==> InDocument(d, d.root))
  {
    InsertTemplateOutcome(d, Str(InsertAfter), html);
    RemoveElementOutcome(InsertTemplate(d, Str(InsertAfter), html), Str(InsertAfter));
  }
}
