/**
 * The part of the page the content script looks at and changes.
 *
 * The page's own elements are a document-ordered sequence of records, each
 * with its tag, its trimmed text, its attributes and the id of its closest
 * `div` (the element itself when it is a `div`). The child lists of the
 * containers the script can insert into form a `Tree`; a child is either a
 * node of the host page or a wrapper `div` the script inserted, holding the
 * injected button until the button is detached from it.
 */
module Dom {
  import opened Base
  import opened Strings

  type NodeId = nat

  /** The tag kinds the two queries distinguish. */
  datatype Tag = Div | Button | Anchor | Span | Paragraph | Other

  datatype Element = Element(
    tag: Tag,
    text: string,                     // textContent, trimmed
    attributes: map<string, string>,
    closestDiv: Option<NodeId>)       // element.closest('div'), null when there is none

  predicate HasAttribute(e: Element, name: string, value: string) {
    name in e.attributes && e.attributes[name] == value
  }

  /** The index of the first element satisfying `p`, in document order. */
  function FirstIndex(elements: seq<Element>, p: Element -> bool): (r: Option<nat>)
    ensures r.Some? ==> r.value < |elements| && p(elements[r.value])
    ensures r.Some? ==> forall j :: 0 <= j < r.value ==> !p(elements[j])
    ensures r.None? <==> forall j :: 0 <= j < |elements| ==> !p(elements[j])
    decreases |elements|
  {
    if |elements| == 0 then None
    else if p(elements[0]) then Some(0)
    else
      match FirstIndex(elements[1..], p)
      case None => None
      case Some(k) => Some(k + 1)
  }

  // ---------------------------------------------------------------------------
  // Target locator (findTargetElementByText)

  /** One of `div, button, a, span` whose trimmed text is exactly "Write". */
  predicate IsWriteText(e: Element) {
    (e.tag == Div || e.tag == Button || e.tag == Anchor || e.tag == Span) && e.text == "Write"
  }

  /** Matches `[aria-label="Write"]`. */
  predicate IsAriaWrite(e: Element) {
    HasAttribute(e, "aria-label", "Write")
  }

  /** Matches `[data-action="write"]`. */
  predicate IsDataActionWrite(e: Element) {
    HasAttribute(e, "data-action", "write")
  }

  /**
   * The container the locator chooses: the closest `div` of the first "Write"
   * element, or failing any, of the first `aria-label` match, or failing that
   * of the first `data-action` match.
   */
  function Target(elements: seq<Element>): (r: Option<NodeId>)
    ensures r.Some? ==>
      exists i :: 0 <= i < |elements| && elements[i].closestDiv == r &&
        (IsWriteText(elements[i]) || IsAriaWrite(elements[i]) || IsDataActionWrite(elements[i]))
  {
    match FirstIndex(elements, IsWriteText)
    case Some(i) => elements[i].closestDiv
    case None =>
      var fallback :=
        match FirstIndex(elements, IsAriaWrite)
        case Some(i) => Some(i)
        case None => FirstIndex(elements, IsDataActionWrite);
      match fallback
      case Some(i) => elements[i].closestDiv
      case None => None
  }

  /** `i` is the first element satisfying `p`. */
  predicate IsFirst(elements: seq<Element>, p: Element -> bool, i: nat) {
    i < |elements| && p(elements[i]) && forall j :: 0 <= j < i ==> !p(elements[j])
  }

  /** The first exact "Write" element decides, whatever the fallbacks would find. */
  lemma TargetPrefersText(elements: seq<Element>, i: nat)
    requires IsFirst(elements, IsWriteText, i)
    ensures Target(elements) == elements[i].closestDiv
  {
    FirstIsUnique(elements, IsWriteText, i);
  }

  /**
   * With no "Write" element, the first `aria-label="Write"` element decides; with
   * neither, the first `data-action="write"` element; with none of the three,
   * there is no target.
   */
  lemma TargetFallbacks(elements: seq<Element>)
    requires forall j :: 0 <= j < |elements| ==> !IsWriteText(elements[j])
    ensures forall i: nat :: IsFirst(elements, IsAriaWrite, i) ==> Target(elements) == elements[i].closestDiv
    ensures (forall j :: 0 <= j < |elements| ==> !IsAriaWrite(elements[j])) ==>
      forall i: nat :: IsFirst(elements, IsDataActionWrite, i) ==> Target(elements) == elements[i].closestDiv
    ensures (forall j :: 0 <= j < |elements| ==>
               !IsAriaWrite(elements[j]) && !IsDataActionWrite(elements[j])) ==> Target(elements) == None
  {
    forall i: nat | IsFirst(elements, IsAriaWrite, i) ensures FirstIndex(elements, IsAriaWrite) == Some(i) {
      FirstIsUnique(elements, IsAriaWrite, i);
    }
    forall i: nat | IsFirst(elements, IsDataActionWrite, i)
      ensures FirstIndex(elements, IsDataActionWrite) == Some(i)
    {
      FirstIsUnique(elements, IsDataActionWrite, i);
    }
  }

  /** `FirstIndex` finds exactly the first match. */
  lemma FirstIsUnique(elements: seq<Element>, p: Element -> bool, i: nat)
    requires IsFirst(elements, p, i)
    ensures FirstIndex(elements, p) == Some(i)
  {
  }

  /** The locator's search loop, followed by the two `querySelector` fallbacks. */
  method FindTarget(elements: seq<Element>) returns (target: Option<NodeId>)
    ensures target == Target(elements)
  {
    var i := 0;
    while i < |elements|
      invariant 0 <= i <= |elements|
      invariant forall j :: 0 <= j < i ==> !IsWriteText(elements[j])
    {
      if IsWriteText(elements[i]) {
        FirstIsUnique(elements, IsWriteText, i);
        return elements[i].closestDiv;
      }
      i := i + 1;
    }
    var fallback := FirstIndex(elements, IsAriaWrite);
    if fallback.None? {
      fallback := FirstIndex(elements, IsDataActionWrite);
    }
    target := if fallback.Some? then elements[fallback.value].closestDiv else None;
  }

  // ---------------------------------------------------------------------------
  // Premium detection (isPremiumArticle)

  /** Matches `div[aria-label="Member-only story"]`. */
  predicate IsMemberBadge(e: Element) {
    e.tag == Div && HasAttribute(e, "aria-label", "Member-only story")
  }

  /**
   * A `span` or `p` whose text mentions one of the paywall phrases. Neither phrase
   * starts or ends with white space, so testing the trimmed text gives the same
   * answer as testing the full text.
   */
  predicate IsPaywallText(e: Element) {
    (e.tag == Span || e.tag == Paragraph) &&
    (Contains(e.text, "Member-only story") || Contains(e.text, "Get unlimited access"))
  }

  /**
   * The badge query, or else the search over `span, p`, finds something: a page
   * is premium exactly when some element is a badge or carries a paywall phrase.
   */
  function IsPremium(elements: seq<Element>): (r: bool)
    ensures r <==> exists i :: 0 <= i < |elements| && (IsMemberBadge(elements[i]) || IsPaywallText(elements[i]))
  {
    FirstIndex(elements, IsMemberBadge).Some? || FirstIndex(elements, IsPaywallText).Some?
  }

  // ---------------------------------------------------------------------------
  // Child lists and the injected button

  /** The injected button: an identity (which creation it came from) and its theme. */
  datatype BreakButton = BreakButton(generation: nat, dark: bool)

  datatype Child = HostNode(id: NodeId) | Wrapper(button: Option<BreakButton>)

  /** The child list of every container in the document. */
  type Tree = map<NodeId, seq<Child>>

  /** The element with the button's fixed id lies in this child. */
  predicate HoldsButton(c: Child) {
    c.Wrapper? && c.button.Some?
  }

  function ChildrenOf(t: Tree, c: NodeId): seq<Child> {
    if c in t then t[c] else []
  }

  /** `document.getElementById(buttonId)` finds something. */
  predicate AnyButton(t: Tree) {
    exists c, i :: c in t && 0 <= i < |t[c]| && HoldsButton(t[c][i])
  }

  /** No two children of the document hold the button. */
  ghost predicate AtMostOneButton(t: Tree) {
    forall c1, i1, c2, i2 ::
      c1 in t && 0 <= i1 < |t[c1]| && HoldsButton(t[c1][i1]) &&
      c2 in t && 0 <= i2 < |t[c2]| && HoldsButton(t[c2][i2]) ==>
      c1 == c2 && i1 == i2
  }

  /** The button present in the document (the one when there is at most one). */
  ghost function ButtonOf(t: Tree): BreakButton
    requires AnyButton(t)
  {
    var c, i :| c in t && 0 <= i < |t[c]| && HoldsButton(t[c][i]);
    t[c][i].button.value
  }

  /** With at most one button, every holder holds `ButtonOf`. */
  lemma ButtonOfAt(t: Tree, c: NodeId, i: nat)
    requires AtMostOneButton(t)
    requires c in t && i < |t[c]| && HoldsButton(t[c][i])
    ensures AnyButton(t) && ButtonOf(t) == t[c][i].button.value
  {
  }

  /** Every button in the document came from one of the first `n` creations. */
  ghost predicate ButtonsBelow(t: Tree, n: nat) {
    forall c, i :: c in t && 0 <= i < |t[c]| && HoldsButton(t[c][i]) ==> t[c][i].button.value.generation < n
  }

  /**
   * The elements sit in the document: an element's closest `div` is a
   * container, and one with a child when it must have one. An element other
   * than a `div` is itself inside that `div`; a `div` with text holds a text
   * node. A `HostNode` stands for any child node, text nodes included.
   */
  ghost predicate WellPlaced(elements: seq<Element>, t: Tree) {
    forall j :: 0 <= j < |elements| && elements[j].closestDiv.Some? ==>
      elements[j].closestDiv.value in t &&
      (elements[j].tag != Div || elements[j].text != "" ==> |t[elements[j].closestDiv.value]| > 0)
  }

  /** `u` keeps every container of `t`, each with at least as many children. */
  ghost predicate Grows(t: Tree, u: Tree) {
    forall c :: c in t ==> c in u && |u[c]| >= |t[c]|
  }

  /** Containers that only gain children keep the elements well placed. */
  lemma PlacedGrows(elements: seq<Element>, t: Tree, u: Tree)
    ensures WellPlaced(elements, t) && Grows(t, u) ==> WellPlaced(elements, u)
  {
  }

  /** The position the wrapper is inserted at: second when there is a first child. */
  function SecondSlot(n: nat): nat {
    if n >= 1 then 1 else 0
  }

  /**
   * The insertion of the wrapper: before the first child's next sibling when
   * there is one, else appended.
   */
  function InsertSecond(s: seq<Child>, w: Child): (r: seq<Child>)
    ensures |r| == |s| + 1
    ensures r[SecondSlot(|s|)] == w
    ensures forall j :: 0 <= j < SecondSlot(|s|) ==> r[j] == s[j]
    ensures forall j :: SecondSlot(|s|) < j < |r| ==> r[j] == s[j - 1]
  {
    if |s| >= 1 then
      if |s| >= 2 then s[..1] + [w] + s[1..] else s + [w]
    else
      s + [w]
  }

  /** Taking the wrapper out again restores the child list: the other children keep their order. */
  lemma RemoveInserted(s: seq<Child>, w: Child)
    ensures RemoveAt(InsertSecond(s, w), SecondSlot(|s|)) == s
  {
    var r := InsertSecond(s, w);
    var k := SecondSlot(|s|);
    var q := RemoveAt(r, k);
    forall j | 0 <= j < |s| ensures q[j] == s[j] {
      if j < k {
        assert q[j] == r[j];
      } else {
        assert q[j] == r[j + 1];
      }
    }
  }

  /** `t` with the wrapper inserted into the child list of container `target`. */
  function InsertInto(t: Tree, target: NodeId, w: Child): (r: Tree)
    ensures target in r && Grows(t, r)
  {
    t[target := InsertSecond(ChildrenOf(t, target), w)]
  }

  /** Inserting a button into a document that has none leaves exactly that one button. */
  lemma {:induction false} InsertKeepsUnique(t: Tree, target: NodeId, w: Child)
    requires !AnyButton(t) && HoldsButton(w)
    ensures AnyButton(InsertInto(t, target, w))
    ensures AtMostOneButton(InsertInto(t, target, w))
    ensures ButtonOf(InsertInto(t, target, w)) == w.button.value
    ensures ButtonsBelow(InsertInto(t, target, w), w.button.value.generation + 1)
  {
    var s := ChildrenOf(t, target);
    var t' := InsertInto(t, target, w);
    var k := SecondSlot(|s|);
    assert t'[target][k] == w;
    forall c, i | c in t' && 0 <= i < |t'[c]| && HoldsButton(t'[c][i])
      ensures c == target && i == k
    {
    }
    ButtonOfAt(t', target, k);
  }

  /** A child with the button of generation `g` detached from it (its wrapper stays). */
  function Unhold(ch: Child, g: nat): Child {
    if HoldsButton(ch) && ch.button.value.generation == g then Wrapper(None) else ch
  }

  /** `t` after `parentNode.removeChild(button)` for the button of generation `g`. */
  function Detach(t: Tree, g: nat): (r: Tree)
    ensures r.Keys == t.Keys
    ensures forall c :: c in t ==> |r[c]| == |t[c]|
    ensures Grows(t, r)
  {
    map c | c in t :: seq(|t[c]|, j requires 0 <= j < |t[c]| => Unhold(t[c][j], g))
  }

  /**
   * Detaching the button of generation `g` keeps at most one button, and leaves
   * one exactly when the button present was of another generation.
   */
  lemma DetachKeepsUnique(t: Tree, g: nat)
    ensures AtMostOneButton(t) ==> AtMostOneButton(Detach(t, g))
    ensures AtMostOneButton(t) ==>
      (AnyButton(Detach(t, g)) <==> AnyButton(t) && ButtonOf(t).generation != g)
    ensures AtMostOneButton(t) && AnyButton(Detach(t, g)) ==> ButtonOf(Detach(t, g)) == ButtonOf(t)
  {
    var r := Detach(t, g);
    forall c, i | c in r && 0 <= i < |r[c]|
      ensures r[c][i] == Unhold(t[c][i], g)
    {
    }
    if AtMostOneButton(t) && AnyButton(t) {
      var c, i :| c in t && 0 <= i < |t[c]| && HoldsButton(t[c][i]);
      ButtonOfAt(t, c, i);
      if ButtonOf(t).generation != g {
        assert r[c][i] == t[c][i];
        ButtonOfAt(r, c, i);
      }
    }
  }

  /** Detaching a button brings no button of a new identity. */
  lemma DetachKeepsBelow(t: Tree, g: nat, n: nat)
    ensures ButtonsBelow(t, n) ==> ButtonsBelow(Detach(t, g), n)
  {
    var r := Detach(t, g);
    if ButtonsBelow(t, n) {
      forall c, i | c in r && 0 <= i < |r[c]| && HoldsButton(r[c][i])
        ensures r[c][i].button.value.generation < n
      {
        assert r[c][i] == Unhold(t[c][i], g);
      }
    }
  }

  /** A child with its button, if any, restyled for the given theme. */
  function Restyled(ch: Child, dark: bool): Child {
    if HoldsButton(ch) then Wrapper(Some(ch.button.value.(dark := dark))) else ch
  }

  /** `t` with the existing button restyled for the given theme (updateTheme). */
  function Restyle(t: Tree, dark: bool): (r: Tree)
    ensures r.Keys == t.Keys
    ensures forall c :: c in t ==> |r[c]| == |t[c]|
    ensures Grows(t, r)
  {
    map c | c in t :: seq(|t[c]|, j requires 0 <= j < |t[c]| => Restyled(t[c][j], dark))
  }

  /** Restyling keeps the button where it is, with the same identity and the new theme. */
  lemma RestyleKeepsButton(t: Tree, dark: bool)
    ensures AtMostOneButton(t) ==> AtMostOneButton(Restyle(t, dark))
    ensures AnyButton(Restyle(t, dark)) <==> AnyButton(t)
    ensures AtMostOneButton(t) && AnyButton(t) ==> ButtonOf(Restyle(t, dark)) == ButtonOf(t).(dark := dark)
  {
    var r := Restyle(t, dark);
    forall c, i | c in r && 0 <= i < |r[c]|
      ensures r[c][i] == Restyled(t[c][i], dark)
    {
    }
    if AnyButton(t) {
      var c, i :| c in t && 0 <= i < |t[c]| && HoldsButton(t[c][i]);
      assert HoldsButton(r[c][i]);
      if AtMostOneButton(t) {
        ButtonOfAt(t, c, i);
        ButtonOfAt(r, c, i);
      }
    }
  }

  /** Restyling keeps every button's identity. */
  lemma RestyleKeepsBelow(t: Tree, dark: bool, n: nat)
    ensures ButtonsBelow(t, n) ==> ButtonsBelow(Restyle(t, dark), n)
  {
    var r := Restyle(t, dark);
    if ButtonsBelow(t, n) {
      forall c, i | c in r && 0 <= i < |r[c]| && HoldsButton(r[c][i])
        ensures r[c][i].button.value.generation < n
      {
        assert r[c][i] == Restyled(t[c][i], dark);
      }
    }
  }
}
