/**
 * The exporter: rewrites the five style attributes of every element below the
 * first `svg` element into QGIS parameter placeholders, optionally keeping the
 * original value after the placeholder.
 */
module SvgProcessor {
  import opened Wrappers
  import opened Text
  import opened Tree
  import opened Dom

  /** `ATTRIBUTE_MAP`, in its entry order: attribute name and placeholder token. */
  const AttributeMap: seq<(string, string)> := [
    ("fill", "param(fill)"),
    ("fill-opacity", "param(fill-opacity)"),
    ("stroke", "param(outline)"),
    ("stroke-opacity", "param(outline-opacity)"),
    ("stroke-width", "param(outline-width)")
  ]

  /** The message of the error thrown when the document has no `svg` element. */
  const NoSvgMessage := "Invalid SVG: No svg element found"

  /** No attribute name occurs twice among `entries`. */
  predicate DistinctNames(entries: seq<(string, string)>) {
    forall i, j | 0 <= i < j < |entries| :: entries[i].0 != entries[j].0
  }

  /** The five attribute names of `ATTRIBUTE_MAP` are distinct. */
  lemma AttributeMapDistinct()
    ensures DistinctNames(AttributeMap)
  {
  }

  /** The token of the last entry for `attr`, if any. */
  function Lookup(entries: seq<(string, string)>, attr: string): Option<string>
  {
    if entries == [] then None
    else if entries[|entries| - 1].0 == attr then Some(entries[|entries| - 1].1)
    else Lookup(entries[..|entries| - 1], attr)
  }

  /** The placeholder token `ATTRIBUTE_MAP` gives `attr`, if it is one of the five. */
  function TokenFor(attr: string): Option<string> {
    Lookup(AttributeMap, attr)
  }

  /** The table `ATTRIBUTE_MAP` spells out: the token of each of the five attributes, and no token for any other. */
  lemma TokenTable(a: string)
    ensures TokenFor(a) ==
      if a == "fill" then Some("param(fill)")
      else if a == "fill-opacity" then Some("param(fill-opacity)")
      else if a == "stroke" then Some("param(outline)")
      else if a == "stroke-opacity" then Some("param(outline-opacity)")
      else if a == "stroke-width" then Some("param(outline-width)")
      else None
  {
    var e := AttributeMap;
    assert e[..1][..0] == [];
    assert Lookup(e[..1], a) == if a == "fill" then Some("param(fill)") else None;
    assert e[..2][..1] == e[..1];
    assert Lookup(e[..2], a) == if a == "fill-opacity" then Some("param(fill-opacity)") else Lookup(e[..1], a);
    assert e[..3][..2] == e[..2];
    assert Lookup(e[..3], a) == if a == "stroke" then Some("param(outline)") else Lookup(e[..2], a);
    assert e[..4][..3] == e[..3];
    assert Lookup(e[..4], a) == if a == "stroke-opacity" then Some("param(outline-opacity)") else Lookup(e[..3], a);
    assert e[..4] == e[..|e| - 1];
  }

  /** The new value of a present attribute: the bare token, or the token, a space and a non-empty original. */
  function Rewritten(token: string, original: string, preserveOriginal: bool): string {
    if preserveOriginal && original != "" then token + " " + original else token
  }

  /** One entry of the `forEach` over `ATTRIBUTE_MAP`: only a present attribute is set. */
  function RewriteEntry(attrs: map<string, string>, entry: (string, string), preserveOriginal: bool): map<string, string> {
    if entry.0 in attrs then attrs[entry.0 := Rewritten(entry.1, attrs[entry.0], preserveOriginal)] else attrs
  }

  /** The entries applied in order, as the `forEach` over `ATTRIBUTE_MAP` applies them. */
  function RewriteEntries(attrs: map<string, string>, entries: seq<(string, string)>, preserveOriginal: bool): map<string, string>
  {
    if entries == [] then attrs
    else RewriteEntry(RewriteEntries(attrs, entries[..|entries| - 1], preserveOriginal), entries[|entries| - 1], preserveOriginal)
  }

  /**
   * With distinct names, each attribute named by an entry is rewritten once if
   * present, every other attribute is kept, and nothing is added or removed.
   */
  lemma {:induction false} RewriteEntriesAt(attrs: map<string, string>, entries: seq<(string, string)>, preserveOriginal: bool)
    requires DistinctNames(entries)
    ensures RewriteEntries(attrs, entries, preserveOriginal).Keys == attrs.Keys
    ensures forall a | a in attrs :: RewriteEntries(attrs, entries, preserveOriginal)[a] == match Lookup(entries, a)
      case Some(token) => Rewritten(token, attrs[a], preserveOriginal)
      case None => attrs[a]
  {
    if entries != [] {
      var prefix := entries[..|entries| - 1];
      assert DistinctNames(prefix) by {
        assert forall i | 0 <= i < |prefix| :: prefix[i] == entries[i];
      }
      RewriteEntriesAt(attrs, prefix, preserveOriginal);
      forall a | Lookup(prefix, a).Some?
        ensures a != entries[|entries| - 1].0
      {
        LookupIsName(prefix, a);
      }
    }
  }

  lemma {:induction false} LookupIsName(entries: seq<(string, string)>, attr: string)
    requires Lookup(entries, attr).Some?
    ensures exists i :: 0 <= i < |entries| && entries[i].0 == attr
  {
    if entries[|entries| - 1].0 != attr {
      LookupIsName(entries[..|entries| - 1], attr);
      var i :| 0 <= i < |entries| - 1 && entries[..|entries| - 1][i].0 == attr;
      assert entries[i].0 == attr;
    }
  }

  /**
   * What `replaceAttributes` does to one element's attributes: every present
   * mapped attribute becomes its token (with the original after a space when
   * preserving a non-empty original); absent ones stay absent; other
   * attributes are untouched.
   */
  function RewriteAttrs(attrs: map<string, string>, preserveOriginal: bool): (r: map<string, string>)
    ensures r.Keys == attrs.Keys
    ensures forall a | a in attrs && TokenFor(a).Some? :: r[a] == Rewritten(TokenFor(a).value, attrs[a], preserveOriginal)
    ensures forall a | a in attrs && TokenFor(a).None? :: r[a] == attrs[a]
  {
    AttributeMapDistinct();
    RewriteEntriesAt(attrs, AttributeMap, preserveOriginal);
    RewriteEntries(attrs, AttributeMap, preserveOriginal)
  }

  function RewriteOf(preserveOriginal: bool): map<string, string> -> map<string, string> {
    attrs => RewriteAttrs(attrs, preserveOriginal)
  }

  /** The attributes of every element of the tree rewritten, whatever its tag. */
  function Export(n: Node, preserveOriginal: bool): Node {
    MapAttrs(n, RewriteOf(preserveOriginal))
  }

  /** The message `processSvg` throws for a value thrown inside it. */
  function FailureMessage(t: Thrown): string {
    "Failed to process SVG: " + match t
      case ErrorObject(message) => message
      case OtherValue => "Unknown error"
  }

  /**
   * `processSvg` on documents: `Success` with the document whose first `svg`
   * element's subtree is exported, or `Failure` with the message of the error
   * it throws.
   */
  function ProcessSvgSpec(svgContent: Node, preserveOriginal: bool, boundary: Boundary): Result<Node, string> {
    if boundary.ParseThrows? then Failure(FailureMessage(boundary.thrown))
    else match FirstByTag(svgContent, "svg")
      case None => Failure(FailureMessage(ErrorObject(NoSvgMessage)))
      case Some(p) =>
        if boundary.SerializeThrows? then Failure(FailureMessage(boundary.thrown))
        else
          FirstByTagFound(svgContent, "svg");
          Success(ReplaceAt(svgContent, p, Export(SubtreeAt(svgContent, p).value, preserveOriginal)))
  }

  /** `replaceAttributes`: rewrites the element's attributes in place, then recurses into its children in order. */
  method ReplaceAttributes(element: Element, preserveOriginal: bool)
    requires element.Valid()
    modifies element.repr
    ensures element.Serialize() == Export(old(element.Serialize()), preserveOriginal)
    decreases element.repr
  {
    ghost var original := element.attrs;
    for i := 0 to |AttributeMap|
      modifies element
      invariant element.attrs == RewriteEntries(original, AttributeMap[..i], preserveOriginal)
    {
      var (attr, paramValue) := AttributeMap[i];
      assert AttributeMap[..i + 1][..i] == AttributeMap[..i];
      if attr in element.attrs {
        var originalValue := element.attrs[attr];
        if preserveOriginal && originalValue != "" {
          element.attrs := element.attrs[attr := paramValue + " " + originalValue];
        } else {
          element.attrs := element.attrs[attr := paramValue];
        }
      }
    }
    assert AttributeMap[..|AttributeMap|] == AttributeMap;
    var children := element.children;
    for k := 0 to |children|
      invariant element.attrs == RewriteAttrs(original, preserveOriginal)
      invariant forall j | 0 <= j < k :: children[j].Serialize() == Export(old(children[j].Serialize()), preserveOriginal)
      invariant forall j | k <= j < |children| :: children[j].Serialize() == old(children[j].Serialize())
    {
      ReplaceAttributes(children[k], preserveOriginal);
      forall j | 0 <= j < |children| && j != k
        ensures children[j].repr !! children[k].repr
      {
      }
    }
  }

  /**
   * `processSvg`: parses a private copy, finds the first `svg` element,
   * rewrites its subtree and serialises the whole document; every failure is
   * reported with the `Failed to process SVG: ` prefix.
   */
  method ProcessSvg(svgContent: Node, preserveOriginal: bool, boundary: Boundary) returns (r: Result<Node, string>)
    ensures r == ProcessSvgSpec(svgContent, preserveOriginal, boundary)
  {
    if boundary.ParseThrows? {
      return Failure(FailureMessage(boundary.thrown));
    }
    var doc := Parse(svgContent);
    var found := FirstByTag(doc.Serialize(), "svg");
    if found.None? {
      return Failure(FailureMessage(ErrorObject(NoSvgMessage)));
    }
    var path := found.value;
    FirstByTagFound(svgContent, "svg");
    doc.ElementAtSubtree(path);
    var svgElement := doc.ElementAt(path).value;
    ghost var before := AttrsOf(doc.repr);
    SerializeIsWith(doc, before);
    SerializeIsWith(svgElement, before);
    ReplaceAttributes(svgElement, preserveOriginal);
    ghost var after := AttrsOf(doc.repr);
    SerializeIsWith(doc, after);
    SerializeIsWith(svgElement, after);
    ChangedOnlyAt(doc, path, svgElement, before, after);
    if boundary.SerializeThrows? {
      return Failure(FailureMessage(boundary.thrown));
    }
    r := Success(doc.Serialize());
  }

  /**
   * Every element of the tree is visited, whatever its tag: the exported tree
   * has an element exactly where the input has one, with the same tag, the
   * same number of children and its attributes rewritten.
   */
  lemma ExportAt(n: Node, preserveOriginal: bool, q: Path)
    ensures SubtreeAt(Export(n, preserveOriginal), q).Some? <==> SubtreeAt(n, q).Some?
    ensures SubtreeAt(n, q).Some? ==>
      var m, e := SubtreeAt(n, q).value, SubtreeAt(Export(n, preserveOriginal), q).value;
      && e.tag == m.tag
      && |e.children| == |m.children|
      && e.attrs == RewriteAttrs(m.attrs, preserveOriginal)
  {
    MapAttrsAt(n, RewriteOf(preserveOriginal), q);
  }

  /** Without preserving, a second rewrite of an element's attributes changes nothing: the bare token is a fixed point. */
  lemma RewriteAttrsIdempotent(attrs: map<string, string>)
    ensures RewriteAttrs(RewriteAttrs(attrs, false), false) == RewriteAttrs(attrs, false)
  {
    var once := RewriteAttrs(attrs, false);
    var twice := RewriteAttrs(once, false);
    assert forall a | a in twice :: twice[a] == once[a];
  }

  /** Exporting twice without preserving originals is exporting once. */
  lemma {:induction false} ExportIdempotent(n: Node)
    ensures Export(Export(n, false), false) == Export(n, false)
  {
    RewriteAttrsIdempotent(n.attrs);
    forall i | 0 <= i < |n.children|
      ensures Export(Export(n.children[i], false), false) == Export(n.children[i], false)
    {
      ExportIdempotent(n.children[i]);
    }
    assert Export(Export(n, false), false).children == Export(n, false).children;
  }

  /**
   * Preserving originals layers: a second rewrite keeps the first result as
   * the "original", so `v` becomes `token token v`.
   */
  lemma RewriteAttrsLayers(attrs: map<string, string>, a: string)
    requires a in attrs && TokenFor(a).Some?
    ensures RewriteAttrs(RewriteAttrs(attrs, true), true)[a] == TokenFor(a).value + " " + Rewritten(TokenFor(a).value, attrs[a], true)
  {
    TokenTable(a);
  }

  /** So exporting twice with originals preserved is not exporting once. */
  lemma PreservingExportNotIdempotent()
    ensures var n := Node("svg", map["fill" := "red"], []);
      Export(Export(n, true), true) != Export(n, true)
  {
    var n := Node("svg", map["fill" := "red"], []);
    TokenTable("fill");
    RewriteAttrsLayers(n.attrs, "fill");
    assert Export(Export(n, true), true).attrs["fill"] == "param(fill) param(fill) red";
    assert Export(n, true).attrs["fill"] == "param(fill) red";
  }

  /**
   * A rectangle with a red fill and no stroke: the fill keeps its value after
   * the token, `none` is kept too, and the three absent attributes stay absent.
   */
  lemma ExportExample()
    ensures
      var rect := Node("rect", map["fill" := "#ff0000", "stroke" := "none"], []);
      var result := ProcessSvgSpec(Node("svg", map[], [rect]), true, Clean);
      && result.Success?
      && result.value.children[0].attrs == map["fill" := "param(fill) #ff0000", "stroke" := "param(outline) none"]
  {
    var rect := Node("rect", map["fill" := "#ff0000", "stroke" := "none"], []);
    TokenTable("fill");
    TokenTable("stroke");
    var r := RewriteAttrs(rect.attrs, true);
    assert r.Keys == {"fill", "stroke"};
    assert r["fill"] == "param(fill) #ff0000";
    assert r["stroke"] == "param(outline) none";
    assert r == map["fill" := "param(fill) #ff0000", "stroke" := "param(outline) none"];
  }

  /**
   * Without a parser or serialiser fault, `processSvg` fails exactly when the
   * document has no `svg` element, and then with this message.
   */
  lemma ProcessSvgFailsWithoutSvg(n: Node, preserveOriginal: bool)
    ensures ProcessSvgSpec(n, preserveOriginal, Clean).Failure? <==> forall q :: !TaggedAt(n, q, "svg")
    ensures ProcessSvgSpec(n, preserveOriginal, Clean).Failure? ==>
      ProcessSvgSpec(n, preserveOriginal, Clean).error == "Failed to process SVG: Invalid SVG: No svg element found"
  {
    FirstByTagNone(n, "svg");
    var r := ProcessSvgSpec(n, preserveOriginal, Clean);
    if FirstByTag(n, "svg").None? {
      assert r == Failure(FailureMessage(ErrorObject(NoSvgMessage)));
      NoSvgFailureText();
    } else {
      assert r.Success?;
    }
  }

  /** The message for a document without an `svg` element, spelled out. */
  lemma NoSvgFailureText()
    ensures FailureMessage(ErrorObject(NoSvgMessage)) == "Failed to process SVG: Invalid SVG: No svg element found"
  {
  }

  /**
   * Only the subtree of the first `svg` element in document order is
   * exported: that element is tagged `svg` and no element before it is; in
   * the result it is replaced by its export; every element outside it keeps
   * its tag, attributes and number of children.
   */
  lemma ProcessSvgOnlyFirstSvg(n: Node, preserveOriginal: bool, boundary: Boundary)
    requires ProcessSvgSpec(n, preserveOriginal, boundary).Success?
    ensures FirstByTag(n, "svg").Some?
    ensures
      var p, out := FirstByTag(n, "svg").value, ProcessSvgSpec(n, preserveOriginal, boundary).value;
      && TaggedAt(n, p, "svg")
      && (forall q | Before(q, p) :: !TaggedAt(n, q, "svg"))
      && SubtreeAt(out, p) == Some(Export(SubtreeAt(n, p).value, preserveOriginal))
      && (forall q | !(p <= q) ::
            && (SubtreeAt(out, q).Some? <==> SubtreeAt(n, q).Some?)
            && (SubtreeAt(n, q).Some? ==>
                  && SubtreeAt(out, q).value.tag == SubtreeAt(n, q).value.tag
                  && SubtreeAt(out, q).value.attrs == SubtreeAt(n, q).value.attrs
                  && |SubtreeAt(out, q).value.children| == |SubtreeAt(n, q).value.children|))
  {
    var p := FirstByTag(n, "svg").value;
    FirstByTagFound(n, "svg");
    var m := Export(SubtreeAt(n, p).value, preserveOriginal);
    ReplaceAtTarget(n, p, m);
    forall q | Before(q, p)
      ensures !TaggedAt(n, q, "svg")
    {
      if TaggedAt(n, q, "svg") {
        FirstByTagIsFirst(n, "svg", q);
      }
    }
    forall q | !(p <= q)
      ensures SubtreeAt(ReplaceAt(n, p, m), q).Some? <==> SubtreeAt(n, q).Some?
      ensures SubtreeAt(n, q).Some? ==>
        && SubtreeAt(ReplaceAt(n, p, m), q).value.tag == SubtreeAt(n, q).value.tag
        && SubtreeAt(ReplaceAt(n, p, m), q).value.attrs == SubtreeAt(n, q).value.attrs
        && |SubtreeAt(ReplaceAt(n, p, m), q).value.children| == |SubtreeAt(n, q).value.children|
    {
      ReplaceAtElsewhere(n, p, m, q);
    }
  }

  /** Processing the output of processing again, without preserving originals, gives it back. */
  lemma ProcessSvgIdempotent(n: Node)
    requires ProcessSvgSpec(n, false, Clean).Success?
    ensures ProcessSvgSpec(ProcessSvgSpec(n, false, Clean).value, false, Clean) == ProcessSvgSpec(n, false, Clean)
  {
    var p := FirstByTag(n, "svg").value;
    FirstByTagFound(n, "svg");
    var sub := SubtreeAt(n, p).value;
    var out := ReplaceAt(n, p, Export(sub, false));
    MapAttrsSameShape(sub, RewriteOf(false));
    ReplaceAtSameShape(n, p, Export(sub, false));
    FirstByTagSameShape(out, n, "svg");
    ReplaceAtTarget(n, p, Export(sub, false));
    ExportIdempotent(sub);
    ReplaceAtTwice(n, p, Export(sub, false), Export(sub, false));
  }
}
