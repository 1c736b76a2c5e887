/** The element tree ElementTree builds from a parsed document: a tag (with its
    namespace written "{uri}local" when it has one), the attributes, the text
    before the first child, the children, and the tail text after the element.
    Absent text or tail is the empty string, which joins the same way. */
module Xml {

  import opened Text

  datatype Element = Element(
    tag: string,
    attrib: map<string, string>,
    text: string,
    children: seq<Element>,
    tail: string)

  /** Element.iter(): the element itself, then its descendants in document order. */
  function Iter(e: Element): (r: seq<Element>)
    ensures |r| >= 1 && r[0] == e
    decreases e, 1
  {
    [e] + IterForest(e.children)
  }

  /** The elements of a list of sibling subtrees, in document order. */
  function IterForest(es: seq<Element>): seq<Element>
    decreases es, 0
  {
    if es == [] then [] else Iter(es[0]) + IterForest(es[1..])
  }

  /** "".join(e.itertext()): the text of e and of its descendants, with the tail
      of every descendant but not e's own tail. */
  function Itertext(e: Element): string
    decreases e, 1
  {
    e.text + ItertextForest(e.children)
  }

  function ItertextForest(es: seq<Element>): string
    decreases es, 0
  {
    if es == [] then "" else Itertext(es[0]) + es[0].tail + ItertextForest(es[1..])
  }

  /** a occurs in b as a contiguous piece. */
  ghost predicate Infix(a: string, b: string) {
    exists k :: InfixAt(a, b, k)
  }

  /** a occurs in b starting at position k. */
  predicate InfixAt(a: string, b: string, k: int) {
    0 <= k <= |b| - |a| && b[k..k + |a|] == a
  }

  lemma InfixWiden(a: string, p: string, b: string, q: string)
    requires Infix(a, b)
    ensures Infix(a, p + b + q)
  {
    var k :| InfixAt(a, b, k);
    assert (p + b + q)[|p| + k..|p| + k + |a|] == b[k..k + |a|];
    assert InfixAt(a, p + b + q, |p| + k);
  }

  /** itertext() misses no element: the text of every element of the subtree
      appears, unbroken, in the joined text. */
  lemma {:induction false} ItertextCovers(x: Element, e: Element)
    requires InSubtree(x, e)
    ensures Infix(x.text, Itertext(e))
    decreases e, 1
  {
    if x == e {
      assert Itertext(e)[0..|x.text|] == x.text;
      assert InfixAt(x.text, Itertext(e), 0);
    } else {
      var i :| 0 <= i < |e.children| && InSubtree(x, e.children[i]);
      ItertextForestCovers(x, e.children, i);
      InfixWiden(x.text, e.text, ItertextForest(e.children), "");
      assert e.text + ItertextForest(e.children) + "" == Itertext(e);
    }
  }

  lemma {:induction false} ItertextForestCovers(x: Element, es: seq<Element>, i: nat)
    requires i < |es| && InSubtree(x, es[i])
    ensures Infix(x.text, ItertextForest(es))
    decreases es, 0
  {
    if i == 0 {
      ItertextCovers(x, es[0]);
      InfixWiden(x.text, "", Itertext(es[0]), es[0].tail + ItertextForest(es[1..]));
      assert "" + Itertext(es[0]) + (es[0].tail + ItertextForest(es[1..])) == ItertextForest(es);
    } else {
      assert es[1..][i - 1] == es[i];
      ItertextForestCovers(x, es[1..], i - 1);
      InfixWiden(x.text, Itertext(es[0]) + es[0].tail, ItertextForest(es[1..]), "");
      assert Itertext(es[0]) + es[0].tail + ItertextForest(es[1..]) + "" == ItertextForest(es);
    }
  }

  /** x lies in the subtree rooted at e (e included). */
  predicate InSubtree(x: Element, e: Element)
    decreases e
  {
    x == e || exists i :: 0 <= i < |e.children| && InSubtree(x, e.children[i])
  }

  /** Iter enumerates exactly the subtree: every element at any depth, and only those. */
  lemma {:induction false} IterIsSubtree(x: Element, e: Element)
    ensures x in Iter(e) <==> InSubtree(x, e)
    decreases e, 1
  {
    IterForestIsSubtrees(x, e.children);
  }

  lemma {:induction false} IterForestIsSubtrees(x: Element, es: seq<Element>)
    ensures x in IterForest(es) <==> exists i :: 0 <= i < |es| && InSubtree(x, es[i])
    decreases es, 0
  {
    if es != [] {
      IterIsSubtree(x, es[0]);
      IterForestIsSubtrees(x, es[1..]);
      if x in IterForest(es[1..]) {
        var i :| 0 <= i < |es[1..]| && InSubtree(x, es[1..][i]);
        assert InSubtree(x, es[i + 1]);
      }
      if i :| 0 <= i < |es| && InSubtree(x, es[i]) {
        if i > 0 { assert InSubtree(x, es[1..][i - 1]); }
      }
    }
  }

  /** The first element of xs whose tag is exactly tag, by position. */
  function FindFirst(xs: seq<Element>, tag: string): (r: Option<Element>)
    ensures r.None? <==> forall i :: 0 <= i < |xs| ==> xs[i].tag != tag
    ensures r.Some? ==> exists i :: 0 <= i < |xs| && xs[i] == r.value && r.value.tag == tag
                          && forall j :: 0 <= j < i ==> xs[j].tag != tag
  {
    if xs == [] then None
    else if xs[0].tag == tag then Some(xs[0])
    else
      var r := FindFirst(xs[1..], tag);
      assert forall i :: 1 <= i < |xs| ==> xs[i] == xs[1..][i - 1];
      r
  }

  /** root.find(".//" + tag): the first element in document order, below the
      root, whose tag is exactly tag; the root itself never qualifies. */
  function FindDescendant(root: Element, tag: string): Option<Element> {
    FindFirst(Iter(root)[1..], tag)
  }

  /** find(".//" + tag) looks strictly below the root: what it finds carries
      the tag and lies in the subtree of one of the root's children, and when
      it finds nothing, no element below the root carries the tag. */
  lemma FindDescendantMeaning(root: Element, tag: string, x: Element)
    ensures FindDescendant(root, tag) == Some(x) ==>
              x.tag == tag && exists i :: 0 <= i < |root.children| && InSubtree(x, root.children[i])
    ensures FindDescendant(root, tag).None? && (exists i :: 0 <= i < |root.children| && InSubtree(x, root.children[i])) ==>
              x.tag != tag
  {
    assert Iter(root)[1..] == IterForest(root.children);
    IterForestIsSubtrees(x, root.children);
    var below := Iter(root)[1..];
    if x in below {
      var j :| 0 <= j < |below| && below[j] == x;
    }
  }
}
