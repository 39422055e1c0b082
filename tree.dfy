/**
 * The element tree of a parsed SVG document, as a value: every element has a
 * tag, a map of named string attributes (names unique per element) and an
 * ordered sequence of child elements. A document is identified with the tree
 * its parser produces; text, comment and other non-element nodes are not
 * represented because neither walk reads or changes them. `tag` is the
 * element's local name, which `querySelector('svg')` matches in any
 * namespace; attribute keys are qualified names, which `hasAttribute`,
 * `getAttribute` and `setAttribute` match.
 */
module Tree {
  import opened Wrappers

  datatype Node = Node(tag: string, attrs: map<string, string>, children: seq<Node>)

  /** The position of an element below a root: the child index taken at each level. */
  type Path = seq<nat>

  /** The element at `p` below `n`, if `p` leads to one. */
  function SubtreeAt(n: Node, p: Path): Option<Node>
    decreases |p|
  {
    if p == [] then Some(n)
    else if p[0] < |n.children| then SubtreeAt(n.children[p[0]], p[1..])
    else None
  }

  /** `n` with the element at `p` replaced by `m` (unchanged if `p` leads nowhere). */
  function ReplaceAt(n: Node, p: Path, m: Node): Node
    decreases |p|
  {
    if p == [] then m
    else if p[0] < |n.children| then
      n.(children := n.children[p[0] := ReplaceAt(n.children[p[0]], p[1..], m)])
    else n
  }

  /**
   * The shared walk of both transforms: replaces the attributes of every
   * element, whatever its tag, by `f` of them, and nothing else.
   */
  function MapAttrs(n: Node, f: map<string, string> -> map<string, string>): Node
  {
    Node(n.tag, f(n.attrs), seq(|n.children|, i requires 0 <= i < |n.children| => MapAttrs(n.children[i], f)))
  }

  /** `p` comes strictly before `q` in document (depth-first pre-order) order. */
  predicate Before(p: Path, q: Path)
    decreases |p|
  {
    |q| > 0 && (|p| == 0 || p[0] < q[0] || (p[0] == q[0] && Before(p[1..], q[1..])))
  }

  /** `n` has an element tagged `tag` at `p`. */
  predicate TaggedAt(n: Node, p: Path, tag: string) {
    SubtreeAt(n, p).Some? && SubtreeAt(n, p).value.tag == tag
  }

  /** `querySelector(tag)`: the path of the first element tagged `tag`, `n` itself included. */
  function FirstByTag(n: Node, tag: string): Option<Path>
    decreases n, |n.children| + 1
  {
    if n.tag == tag then Some([]) else FirstInChildren(n, 0, tag)
  }

  /** The first element tagged `tag` in the subtrees of children `i`, `i + 1`, ... of `n`. */
  function FirstInChildren(n: Node, i: nat, tag: string): Option<Path>
    decreases n, |n.children| - i
  {
    if i >= |n.children| then None
    else match FirstByTag(n.children[i], tag)
      case Some(p) => Some([i] + p)
      case None => FirstInChildren(n, i + 1, tag)
  }

  /** Every element of the result sits where an element of `n` does, with the same tag, `f` of its attributes and as many children. */
  lemma {:induction false} MapAttrsAt(n: Node, f: map<string, string> -> map<string, string>, q: Path)
    ensures SubtreeAt(MapAttrs(n, f), q).Some? <==> SubtreeAt(n, q).Some?
    ensures SubtreeAt(n, q).Some? ==>
      && SubtreeAt(MapAttrs(n, f), q).value == MapAttrs(SubtreeAt(n, q).value, f)
      && SubtreeAt(MapAttrs(n, f), q).value.tag == SubtreeAt(n, q).value.tag
      && SubtreeAt(MapAttrs(n, f), q).value.attrs == f(SubtreeAt(n, q).value.attrs)
      && |SubtreeAt(MapAttrs(n, f), q).value.children| == |SubtreeAt(n, q).value.children|
    decreases |q|
  {
    if q != [] && q[0] < |n.children| {
      MapAttrsAt(n.children[q[0]], f, q[1..]);
    }
  }

  /** After `ReplaceAt`, `m` sits at `p`. */
  lemma {:induction false} ReplaceAtTarget(n: Node, p: Path, m: Node)
    requires SubtreeAt(n, p).Some?
    ensures SubtreeAt(ReplaceAt(n, p, m), p) == Some(m)
    decreases |p|
  {
    if p != [] {
      ReplaceAtTarget(n.children[p[0]], p[1..], m);
    }
  }

  /**
   * Outside the replaced subtree nothing changes: every element not at or
   * below `p` is still there with its tag, attributes and number of children,
   * and an element off the path to `p` is entirely unchanged.
   */
  lemma {:induction false} ReplaceAtElsewhere(n: Node, p: Path, m: Node, q: Path)
    requires SubtreeAt(n, p).Some? && !(p <= q)
    ensures SubtreeAt(ReplaceAt(n, p, m), q).Some? <==> SubtreeAt(n, q).Some?
    ensures SubtreeAt(n, q).Some? ==>
      && SubtreeAt(ReplaceAt(n, p, m), q).value.tag == SubtreeAt(n, q).value.tag
      && SubtreeAt(ReplaceAt(n, p, m), q).value.attrs == SubtreeAt(n, q).value.attrs
      && |SubtreeAt(ReplaceAt(n, p, m), q).value.children| == |SubtreeAt(n, q).value.children|
    ensures !(q <= p) ==> SubtreeAt(ReplaceAt(n, p, m), q) == SubtreeAt(n, q)
    decreases |q|
  {
    if q != [] && q[0] < |n.children| {
      if q[0] == p[0] {
        assert !(p[1..] <= q[1..]) && (q[1..] <= p[1..] ==> q <= p);
        ReplaceAtElsewhere(n.children[p[0]], p[1..], m, q[1..]);
      }
    }
  }

  /** A path found by `FirstByTag` leads to an element with that tag. */
  lemma {:induction false} FirstByTagFound(n: Node, tag: string)
    ensures FirstByTag(n, tag).Some? ==> TaggedAt(n, FirstByTag(n, tag).value, tag)
    decreases n, |n.children| + 1
  {
    if n.tag != tag {
      FirstInChildrenFound(n, 0, tag);
    }
  }

  lemma {:induction false} FirstInChildrenFound(n: Node, i: nat, tag: string)
    ensures FirstInChildren(n, i, tag).Some? ==>
      var p := FirstInChildren(n, i, tag).value;
      |p| > 0 && i <= p[0] && TaggedAt(n, p, tag)
    decreases n, |n.children| - i
  {
    if i < |n.children| {
      FirstByTagFound(n.children[i], tag);
      if FirstByTag(n.children[i], tag).None? {
        FirstInChildrenFound(n, i + 1, tag);
      } else {
        var p := FirstByTag(n.children[i], tag).value;
        assert ([i] + p)[1..] == p;
      }
    }
  }

  /**
   * If some element at `q` is tagged `tag`, `FirstByTag` finds one and the one
   * it finds does not come after `q` in document order.
   */
  lemma {:induction false} FirstByTagIsFirst(n: Node, tag: string, q: Path)
    requires TaggedAt(n, q, tag)
    ensures FirstByTag(n, tag).Some? && !Before(q, FirstByTag(n, tag).value)
    decreases n, |n.children| + 1
  {
    if n.tag != tag {
      FirstInChildrenIsFirst(n, 0, tag, q);
    }
  }

  lemma {:induction false} FirstInChildrenIsFirst(n: Node, i: nat, tag: string, q: Path)
    requires TaggedAt(n, q, tag) && q != [] && i <= q[0]
    ensures FirstInChildren(n, i, tag).Some? && !Before(q, FirstInChildren(n, i, tag).value)
    decreases n, |n.children| - i
  {
    var c := n.children[i];
    if i == q[0] {
      FirstByTagIsFirst(c, tag, q[1..]);
      var r := FirstByTag(c, tag).value;
      assert ([i] + r)[0] == i && ([i] + r)[1..] == r;
    } else if FirstByTag(c, tag).Some? {
      var r := FirstByTag(c, tag).value;
      assert ([i] + r)[0] == i;
    } else {
      FirstInChildrenIsFirst(n, i + 1, tag, q);
    }
  }

  /** `FirstByTag` finds nothing exactly when no element of `n` is tagged `tag`. */
  lemma FirstByTagNone(n: Node, tag: string)
    ensures FirstByTag(n, tag).None? <==> forall q :: !TaggedAt(n, q, tag)
  {
    FirstByTagFound(n, tag);
    forall q | TaggedAt(n, q, tag)
      ensures FirstByTag(n, tag).Some?
    {
      FirstByTagIsFirst(n, tag, q);
    }
  }

  /** `n` and `m` have the same tags at the same places and differ at most in attributes. */
  predicate SameShape(n: Node, m: Node) {
    && n.tag == m.tag
    && |n.children| == |m.children|
    && forall i | 0 <= i < |n.children| :: SameShape(n.children[i], m.children[i])
  }

  lemma {:induction false} SameShapeRefl(n: Node)
    ensures SameShape(n, n)
  {
    forall i | 0 <= i < |n.children|
      ensures SameShape(n.children[i], n.children[i])
    {
      SameShapeRefl(n.children[i]);
    }
  }

  /** The shared walk changes attributes only. */
  lemma {:induction false} MapAttrsSameShape(n: Node, f: map<string, string> -> map<string, string>)
    ensures SameShape(MapAttrs(n, f), n)
  {
    forall i | 0 <= i < |n.children|
      ensures SameShape(MapAttrs(n.children[i], f), n.children[i])
    {
      MapAttrsSameShape(n.children[i], f);
    }
  }

  /** Replacing a subtree by one of the same shape keeps the shape of the whole. */
  lemma {:induction false} ReplaceAtSameShape(n: Node, p: Path, m: Node)
    requires SubtreeAt(n, p).Some? && SameShape(m, SubtreeAt(n, p).value)
    ensures SameShape(ReplaceAt(n, p, m), n)
    decreases |p|
  {
    if p != [] {
      ReplaceAtSameShape(n.children[p[0]], p[1..], m);
      forall i | 0 <= i < |n.children| && i != p[0]
        ensures SameShape(n.children[i], n.children[i])
      {
        SameShapeRefl(n.children[i]);
      }
    }
  }

  /** The first element with a tag depends on the tags only. */
  lemma {:induction false} FirstByTagSameShape(n: Node, m: Node, tag: string)
    requires SameShape(n, m)
    ensures FirstByTag(n, tag) == FirstByTag(m, tag)
    decreases n, |n.children| + 1
  {
    if n.tag != tag {
      FirstInChildrenSameShape(n, m, 0, tag);
    }
  }

  lemma {:induction false} FirstInChildrenSameShape(n: Node, m: Node, i: nat, tag: string)
    requires SameShape(n, m)
    ensures FirstInChildren(n, i, tag) == FirstInChildren(m, i, tag)
    decreases n, |n.children| - i
  {
    if i < |n.children| {
      FirstByTagSameShape(n.children[i], m.children[i], tag);
      FirstInChildrenSameShape(n, m, i + 1, tag);
    }
  }

  /** A second replacement at the same place overrides the first. */
  lemma {:induction false} ReplaceAtTwice(n: Node, p: Path, m1: Node, m2: Node)
    requires SubtreeAt(n, p).Some?
    ensures ReplaceAt(ReplaceAt(n, p, m1), p, m2) == ReplaceAt(n, p, m2)
    decreases |p|
  {
    if p != [] {
      ReplaceAtTwice(n.children[p[0]], p[1..], m1, m2);
    }
  }
}
