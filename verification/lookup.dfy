/**
 * `safely_get_data(element, key)`: the text of the first direct child whose
 * tag is `key`; Python's None when the children run out without a match; the
 * string "not found" only when walking the children raises.
 */
module Lookup {
  import opened Wrappers

  /** What the lookup returns when iterating over the children raises. */
  const NotFound: string := "not found"

  /** A direct child of an offer: its tag and its text (None for an element without text). */
  datatype Child = Child(tag: string, text: Option<string>)

  /**
   * A parsed offer element: its attributes, its direct children in document
   * order, and, if iterating over the children raises, the position at which
   * it does (`raisesAt == Some(k)`: the children before position k are
   * produced, then the iteration raises; k == |children| raises instead of
   * finishing; k > |children| is never reached, so it means the same as
   * None: the iteration does not raise).
   */
  datatype Element = Element(attrib: map<string, string>, children: seq<Child>, raisesAt: Option<nat>)

  /** Whether iterating over the children raises at some position in lo..hi. */
  predicate RaisesWithin(e: Element, lo: int, hi: int) {
    e.raisesAt.Some? && lo <= e.raisesAt.value <= hi
  }

  /** How the `for child in element` loop ends. */
  datatype Walk = Match(index: nat) | Exhausted | Raised

  /** The loop from position `i` on: stop at a matching tag, at the end, or where iteration raises. */
  function WalkFrom(e: Element, key: string, i: nat): (w: Walk)
    requires i <= |e.children|
    ensures w.Match? ==>
      i <= w.index < |e.children| && e.children[w.index].tag == key &&
      !RaisesWithin(e, i, w.index) &&
      forall j :: i <= j < w.index ==> e.children[j].tag != key
    ensures w.Exhausted? ==>
      !RaisesWithin(e, i, |e.children|) &&
      forall j :: i <= j < |e.children| ==> e.children[j].tag != key
    ensures w.Raised? ==>
      RaisesWithin(e, i, |e.children|) &&
      forall j :: i <= j < e.raisesAt.value ==> e.children[j].tag != key
    decreases |e.children| - i
  {
    if e.raisesAt == Some(i) then Raised
    else if i == |e.children| then Exhausted
    else if e.children[i].tag == key then Match(i)
    else WalkFrom(e, key, i + 1)
  }

  /** `i` is the first position, in document order, of a child tagged `key`. */
  predicate IsFirstMatch(e: Element, key: string, i: int) {
    0 <= i < |e.children| && e.children[i].tag == key &&
    forall j :: 0 <= j < i ==> e.children[j].tag != key
  }

  /** Iteration raises before it reaches any child tagged `key`. */
  predicate RaisesBeforeMatch(e: Element, key: string) {
    RaisesWithin(e, 0, |e.children|) &&
    forall j :: 0 <= j < e.raisesAt.value ==> e.children[j].tag != key
  }

  predicate NoChildTagged(e: Element, key: string) {
    forall j :: 0 <= j < |e.children| ==> e.children[j].tag != key
  }

  /**
   * safely_get_data(element, key): the first matching child's text when the
   * iteration reaches it; None when every child is passed without a match and
   * without a raise (not "not found"); "not found" when the iteration raises
   * before any matching child.
   */
  function SafelyGetData(e: Element, key: string): (r: Option<string>)
    ensures forall i :: IsFirstMatch(e, key, i) && !RaisesWithin(e, 0, i) ==> r == e.children[i].text
    ensures NoChildTagged(e, key) && !RaisesWithin(e, 0, |e.children|) ==> r == None
    ensures RaisesBeforeMatch(e, key) ==> r == Some(NotFound)
  {
    match WalkFrom(e, key, 0)
    case Match(i) => e.children[i].text
    case Exhausted => None
    case Raised => Some(NotFound)
  }

  /**
   * "not found" comes from a raise, unless the first matching child's own
   * text happens to be "not found".
   */
  lemma NotFoundOnlyFromRaise(e: Element, key: string)
    requires SafelyGetData(e, key) == Some(NotFound)
    ensures RaisesWithin(e, 0, |e.children|) ||
      exists i :: IsFirstMatch(e, key, i) && e.children[i].text == Some(NotFound)
  {
    var w := WalkFrom(e, key, 0);
    if w.Match? {
      assert IsFirstMatch(e, key, w.index);
    }
  }

  /**
   * None comes from a miss without a raise, or from a first matching child
   * that has no text.
   */
  lemma NoneOnlyFromMissOrEmptyChild(e: Element, key: string)
    requires SafelyGetData(e, key) == None
    ensures (NoChildTagged(e, key) && !RaisesWithin(e, 0, |e.children|)) ||
      exists i :: IsFirstMatch(e, key, i) && !RaisesWithin(e, 0, i) && e.children[i].text == None
  {
    var w := WalkFrom(e, key, 0);
    if w.Match? {
      assert IsFirstMatch(e, key, w.index);
    }
  }
}
