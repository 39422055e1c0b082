/**
 * The mutable DOM the two walks run on. An element's tag and children are
 * fixed once it is built (neither walk adds, removes or reorders elements);
 * only its attribute map is updated in place. `repr` is the set of elements
 * of the subtree, and distinct children own disjoint subtrees.
 */
module Dom {
  import opened Wrappers
  import opened Tree

  /** A value thrown by the browser's parser or serialiser: an `Error` with its message, or anything else. */
  datatype Thrown = ErrorObject(message: string) | OtherValue

  /**
   * Whether the foreign parse/serialise boundary throws on a document, and
   * where: `DOMParser.parseFromString` before the walk, or
   * `XMLSerializer.serializeToString` after it.
   */
  datatype Boundary = Clean | ParseThrows(thrown: Thrown) | SerializeThrows(thrown: Thrown)

  class Element {
    const tag: string
    var attrs: map<string, string>
    const children: seq<Element>
    ghost const repr: set<Element>

    /** The subtree is a tree: each child owns a part of `repr` without this element, and siblings share nothing. */
    ghost predicate Valid()
      decreases repr
    {
      && this in repr
      && (forall i | 0 <= i < |children| :: children[i] in repr && children[i].repr <= repr && this !in children[i].repr)
      && (forall i, j | 0 <= i < j < |children| :: children[i].repr !! children[j].repr)
      && (forall i | 0 <= i < |children| :: children[i].Valid())
    }

    /** `XMLSerializer`: the current state of the subtree as a value. */
    function Serialize(): (t: Node)
      reads repr
      requires Valid()
      decreases repr
    {
      Node(tag, attrs, seq(|children|, i reads repr requires 0 <= i < |children| => children[i].Serialize()))
    }

    /** Builds an element over already built, disjoint children. */
    constructor (tag: string, attrs: map<string, string>, children: seq<Element>)
      requires forall i | 0 <= i < |children| :: children[i].Valid()
      requires forall i, j | 0 <= i < j < |children| :: children[i].repr !! children[j].repr
      ensures Valid()
      ensures this.tag == tag && this.attrs == attrs && this.children == children
      ensures repr == {this} + SubtreeReprs(children)
    {
      this.tag := tag;
      this.attrs := attrs;
      this.children := children;
      this.repr := {this} + SubtreeReprs(children);
      new;
      forall i | 0 <= i < |children|
        ensures children[i].repr <= SubtreeReprs(children)
      {
        ReprsCover(children, i);
      }
    }

    /** The element at `p` below this one, found by following `children` only. */
    function ElementAt(p: Path): (e: Option<Element>)
      decreases |p|
    {
      if p == [] then Some(this)
      else if p[0] < |children| then children[p[0]].ElementAt(p[1..])
      else None
    }

    /** `ElementAt` and `SubtreeAt` follow the same path: the element found is a valid part of this subtree and serialises to the subtree found. */
    lemma {:induction false} ElementAtSubtree(p: Path)
      requires Valid()
      ensures ElementAt(p).Some? <==> SubtreeAt(Serialize(), p).Some?
      ensures ElementAt(p).Some? ==>
        && ElementAt(p).value.Valid()
        && ElementAt(p).value.repr <= repr
        && ElementAt(p).value.Serialize() == SubtreeAt(Serialize(), p).value
      decreases |p|
    {
      if p != [] && p[0] < |children| {
        children[p[0]].ElementAtSubtree(p[1..]);
      }
    }
  }

  /** All elements of the subtrees rooted at `cs`. */
  ghost function SubtreeReprs(cs: seq<Element>): set<Element>
  {
    if cs == [] then {} else SubtreeReprs(cs[..|cs| - 1]) + cs[|cs| - 1].repr
  }

  lemma {:induction false} ReprsCover(cs: seq<Element>, i: nat)
    requires i < |cs|
    ensures cs[i].repr <= SubtreeReprs(cs)
  {
    if i < |cs| - 1 {
      ReprsCover(cs[..|cs| - 1], i);
    }
  }

  /** Every element of `SubtreeReprs(cs)` lies in the subtree of one of `cs`. */
  lemma {:induction false} ReprsWithin(cs: seq<Element>, o: Element)
    requires o in SubtreeReprs(cs)
    ensures exists i :: 0 <= i < |cs| && o in cs[i].repr
  {
    if o !in cs[|cs| - 1].repr {
      ReprsWithin(cs[..|cs| - 1], o);
      var i :| 0 <= i < |cs| - 1 && o in cs[..|cs| - 1][i].repr;
      assert o in cs[i].repr;
    }
  }

  /**
   * `DOMParser`: builds a private, freshly allocated element tree from a
   * document. Serialising what it builds gives the document back.
   */
  method Parse(t: Node) returns (e: Element)
    ensures e.Valid() && fresh(e.repr)
    ensures e.Serialize() == t
    decreases t
  {
    var built: seq<Element> := [];
    var i := 0;
    while i < |t.children|
      invariant 0 <= i <= |t.children| && |built| == i
      invariant forall j | 0 <= j < i :: built[j].Valid() && fresh(built[j].repr)
      invariant forall j | 0 <= j < i :: built[j].Serialize() == t.children[j]
      invariant forall j, k | 0 <= j < k < i :: built[j].repr !! built[k].repr
    {
      var c := Parse(t.children[i]);
      built := built + [c];
      i := i + 1;
    }
    e := new Element(t.tag, t.attrs, built);
    forall o | o in e.repr
      ensures fresh(o)
    {
      if o != e {
        ReprsWithin(built, o);
      }
    }
    assert e.Serialize().children == t.children;
  }

  /** The attributes of the elements `es` hold now. */
  ghost function AttrsOf(es: set<Element>): (snap: map<Element, map<string, string>>)
    reads es
  {
    map o | o in es :: o.attrs
  }

  /** The value the subtree of `e` serialises to when its elements carry the attributes recorded in `snap`. */
  ghost function SerializeWith(e: Element, snap: map<Element, map<string, string>>): Node
    requires e.Valid() && e.repr <= snap.Keys
    decreases e.repr
  {
    Node(e.tag, snap[e], seq(|e.children|, i requires 0 <= i < |e.children| => SerializeWith(e.children[i], snap)))
  }

  /** A snapshot of the current attributes serialises like the element itself. */
  lemma {:induction false} SerializeIsWith(e: Element, snap: map<Element, map<string, string>>)
    requires e.Valid() && e.repr <= snap.Keys
    requires forall o | o in e.repr :: snap[o] == o.attrs
    ensures e.Serialize() == SerializeWith(e, snap)
    decreases e.repr
  {
    forall i | 0 <= i < |e.children|
      ensures e.children[i].Serialize() == SerializeWith(e.children[i], snap)
    {
      SerializeIsWith(e.children[i], snap);
    }
  }

  /** Only the attributes recorded for the subtree's own elements matter. */
  lemma {:induction false} SerializeWithAgree(e: Element, s1: map<Element, map<string, string>>, s2: map<Element, map<string, string>>)
    requires e.Valid() && e.repr <= s1.Keys && e.repr <= s2.Keys
    requires forall o | o in e.repr :: s1[o] == s2[o]
    ensures SerializeWith(e, s1) == SerializeWith(e, s2)
    decreases e.repr
  {
    forall i | 0 <= i < |e.children|
      ensures SerializeWith(e.children[i], s1) == SerializeWith(e.children[i], s2)
    {
      SerializeWithAgree(e.children[i], s1, s2);
    }
  }

  /**
   * When two snapshots of `doc` differ only inside the subtree of `s`, the
   * element at `p`, the second is the first with the element at `p` replaced
   * by the subtree of `s` as the second records it.
   */
  lemma {:induction false} ChangedOnlyAt(doc: Element, p: Path, s: Element, s1: map<Element, map<string, string>>, s2: map<Element, map<string, string>>)
    requires doc.Valid() && doc.ElementAt(p) == Some(s)
    requires doc.repr <= s1.Keys && doc.repr <= s2.Keys
    requires forall o | o in doc.repr && o !in s.repr :: s1[o] == s2[o]
    ensures s.Valid() && s.repr <= doc.repr
    ensures SubtreeAt(SerializeWith(doc, s1), p).Some?
    ensures SerializeWith(doc, s2) == ReplaceAt(SerializeWith(doc, s1), p, SerializeWith(s, s2))
    decreases |p|
  {
    doc.ElementAtSubtree(p);
    if p != [] {
      var k := p[0];
      var c := doc.children[k];
      c.ElementAtSubtree(p[1..]);
      ChangedOnlyAt(c, p[1..], s, s1, s2);
      forall j | 0 <= j < |doc.children| && j != k
        ensures SerializeWith(doc.children[j], s1) == SerializeWith(doc.children[j], s2)
      {
        var d := doc.children[j];
        assert d.repr !! c.repr;
        SerializeWithAgree(d, s1, s2);
      }
      assert SerializeWith(doc, s2).children == SerializeWith(doc, s1).children[k := SerializeWith(c, s2)];
    }
  }
}
