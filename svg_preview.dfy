/**
 * The previewer: on every element below the first `svg` element, each of the
 * five style attributes whose value contains its placeholder token is replaced
 * as a whole by the live parameter value, so that the exported document can be
 * shown with the user's colours. Any failure returns the input unchanged.
 */
module SvgPreview {
  import opened Wrappers
  import opened Text
  import opened Tree
  import opened Dom
  import SvgProcessor

  /** `SvgParams`: two colours as given, two opacities and a stroke width as numbers. */
  datatype SvgParams = SvgParams(fill: string, fillOpacity: real, stroke: string, strokeOpacity: real, strokeWidth: real)

  /** `defaultParams`. */
  const DefaultParams: SvgParams := SvgParams("#667eea", 0.8, "#764ba2", 1.0, 2.0)

  /** A colour as a colour input holds it: `#` and six lower-case hexadecimal digits. */
  predicate IsHexColour(s: string) {
    |s| == 7 && s[0] == '#' && forall i | 1 <= i < 7 :: s[i] in "0123456789abcdef"
  }

  /**
   * The default parameters are the values the controls start from: two
   * colours a colour input can hold, opacities within the sliders' 0 to 1,
   * and a width within the width slider's 0 to 10.
   */
  lemma DefaultParamsWithinControls()
    ensures DefaultParams.fill == "#667eea" && DefaultParams.stroke == "#764ba2"
    ensures IsHexColour(DefaultParams.fill) && IsHexColour(DefaultParams.stroke)
    ensures DefaultParams.fillOpacity == 0.8 && DefaultParams.strokeOpacity == 1.0 && DefaultParams.strokeWidth == 2.0
    ensures 0.0 <= DefaultParams.fillOpacity <= 1.0 && 0.0 <= DefaultParams.strokeOpacity <= 1.0
    ensures 0.0 <= DefaultParams.strokeWidth <= 10.0
  {
  }

  /** The five style attributes both transforms look at. */
  const StyleAttributes: set<string> := {"fill", "fill-opacity", "stroke", "stroke-opacity", "stroke-width"}

  /**
   * One guarded block of `applyParams`: the block is entered when the element
   * has the attribute or an attribute named like the token, and the attribute
   * is set when its value includes the token. The second guard alone decides.
   */
  function SubstituteOne(attrs: map<string, string>, attr: string, token: string, value: string): (r: map<string, string>)
    ensures r == if attr in attrs && Includes(attrs[attr], token) then attrs[attr := value] else attrs
  {
    if attr in attrs || token in attrs then
      if attr in attrs && Includes(attrs[attr], token) then attrs[attr := value] else attrs
    else attrs
  }

  /**
   * The token the previewer looks for in a style attribute and the live
   * value it puts in its place (numbers through `show`, the `toString` of the
   * host); nothing for any other attribute.
   */
  function Substitution(attr: string, params: SvgParams, show: real -> string): Option<(string, string)> {
    if attr == "fill" then Some(("param(fill)", params.fill))
    else if attr == "fill-opacity" then Some(("param(fill-opacity)", show(params.fillOpacity)))
    else if attr == "stroke" then Some(("param(outline)", params.stroke))
    else if attr == "stroke-opacity" then Some(("param(outline-opacity)", show(params.strokeOpacity)))
    else if attr == "stroke-width" then Some(("param(outline-width)", show(params.strokeWidth)))
    else None
  }

  /** The value of `attr` after substitution: the live value when the old value includes the token. */
  function SubstitutedValue(attr: string, value: string, params: SvgParams, show: real -> string): string {
    match Substitution(attr, params, show)
    case None => value
    case Some((token, live)) => if Includes(value, token) then live else value
  }

  /**
   * What `applyParams` does to one element's attributes: each style attribute
   * whose value includes its token becomes the live value; every other
   * attribute is kept, and nothing is added or removed.
   */
  function SubstituteAttrs(attrs: map<string, string>, params: SvgParams, show: real -> string): (r: map<string, string>)
    ensures r.Keys == attrs.Keys
    ensures forall a | a in attrs && a !in StyleAttributes :: r[a] == attrs[a]
  {
    map a | a in attrs :: SubstitutedValue(a, attrs[a], params, show)
  }

  /** The five guarded blocks of `applyParams` in their order, one after the other. */
  function ApplyBlocks(attrs: map<string, string>, params: SvgParams, show: real -> string): map<string, string> {
    var a1 := SubstituteOne(attrs, "fill", "param(fill)", params.fill);
    var a2 := SubstituteOne(a1, "fill-opacity", "param(fill-opacity)", show(params.fillOpacity));
    var a3 := SubstituteOne(a2, "stroke", "param(outline)", params.stroke);
    var a4 := SubstituteOne(a3, "stroke-opacity", "param(outline-opacity)", show(params.strokeOpacity));
    SubstituteOne(a4, "stroke-width", "param(outline-width)", show(params.strokeWidth))
  }

  /**
   * The five blocks touch five distinct attributes, so running them in order
   * is substituting every attribute independently.
   */
  lemma ApplyBlocksIsSubstitution(attrs: map<string, string>, params: SvgParams, show: real -> string)
    ensures ApplyBlocks(attrs, params, show) == SubstituteAttrs(attrs, params, show)
  {
    var n1, n2, n3, n4 := {"fill"}, {"fill", "fill-opacity"}, {"fill", "fill-opacity", "stroke"}, {"fill", "fill-opacity", "stroke", "stroke-opacity"};
    assert SubstitutedFor(attrs, {}, params, show) == attrs;
    var a1 := SubstituteOne(attrs, "fill", "param(fill)", params.fill);
    BlockStep(attrs, {}, "fill", params, show);
    assert {} + {"fill"} == n1;
    var a2 := SubstituteOne(a1, "fill-opacity", "param(fill-opacity)", show(params.fillOpacity));
    BlockStep(attrs, n1, "fill-opacity", params, show);
    assert n1 + {"fill-opacity"} == n2;
    var a3 := SubstituteOne(a2, "stroke", "param(outline)", params.stroke);
    BlockStep(attrs, n2, "stroke", params, show);
    assert n2 + {"stroke"} == n3;
    var a4 := SubstituteOne(a3, "stroke-opacity", "param(outline-opacity)", show(params.strokeOpacity));
    BlockStep(attrs, n3, "stroke-opacity", params, show);
    assert n3 + {"stroke-opacity"} == n4;
    var a5 := SubstituteOne(a4, "stroke-width", "param(outline-width)", show(params.strokeWidth));
    BlockStep(attrs, n4, "stroke-width", params, show);
    assert n4 + {"stroke-width"} == StyleAttributes;
    assert a5 == SubstitutedFor(attrs, StyleAttributes, params, show);
    AllStyleSubstituted(attrs, params, show);
  }

  /** Substituting the style attributes is substituting every attribute. */
  lemma AllStyleSubstituted(attrs: map<string, string>, params: SvgParams, show: real -> string)
    ensures SubstitutedFor(attrs, StyleAttributes, params, show) == SubstituteAttrs(attrs, params, show)
  {
    forall a | a in attrs && a !in StyleAttributes
      ensures Substitution(a, params, show).None?
    {
    }
  }

  /** `attrs` with the attributes in `names` substituted and the others as they were. */
  function SubstitutedFor(attrs: map<string, string>, names: set<string>, params: SvgParams, show: real -> string): map<string, string> {
    map a | a in attrs :: if a in names then SubstitutedValue(a, attrs[a], params, show) else attrs[a]
  }

  /** One more block substitutes one more attribute. */
  lemma BlockStep(attrs: map<string, string>, names: set<string>, attr: string, params: SvgParams, show: real -> string)
    requires attr !in names && Substitution(attr, params, show).Some?
    ensures
      var (token, live) := Substitution(attr, params, show).value;
      SubstituteOne(SubstitutedFor(attrs, names, params, show), attr, token, live)
        == SubstitutedFor(attrs, names + {attr}, params, show)
  {
  }

  /** Spelled out for the five style attributes. */
  lemma SubstituteAttrsTable(attrs: map<string, string>, params: SvgParams, show: real -> string)
    ensures var r := SubstituteAttrs(attrs, params, show);
      && ("fill" in attrs ==>
            r["fill"] == if Includes(attrs["fill"], "param(fill)") then params.fill else attrs["fill"])
      && ("fill-opacity" in attrs ==>
            r["fill-opacity"] == if Includes(attrs["fill-opacity"], "param(fill-opacity)") then show(params.fillOpacity) else attrs["fill-opacity"])
      && ("stroke" in attrs ==>
            r["stroke"] == if Includes(attrs["stroke"], "param(outline)") then params.stroke else attrs["stroke"])
      && ("stroke-opacity" in attrs ==>
            r["stroke-opacity"] == if Includes(attrs["stroke-opacity"], "param(outline-opacity)") then show(params.strokeOpacity) else attrs["stroke-opacity"])
      && ("stroke-width" in attrs ==>
            r["stroke-width"] == if Includes(attrs["stroke-width"], "param(outline-width)") then show(params.strokeWidth) else attrs["stroke-width"])
  {
  }

  function SubstituteOf(params: SvgParams, show: real -> string): map<string, string> -> map<string, string> {
    attrs => SubstituteAttrs(attrs, params, show)
  }

  /** The attributes of every element of the tree substituted, whatever its tag. */
  function Preview(n: Node, params: SvgParams, show: real -> string): Node {
    MapAttrs(n, SubstituteOf(params, show))
  }

  /**
   * `applyParamsToSvg` on documents. It fails open: a parser or serialiser
   * fault, or a document without an `svg` element, gives back the input.
   */
  function ApplyParamsToSvgSpec(svgContent: Node, params: SvgParams, show: real -> string, boundary: Boundary): (r: Node)
    ensures !boundary.Clean? ==> r == svgContent
    ensures (forall q :: !TaggedAt(svgContent, q, "svg")) ==> r == svgContent
  {
    FirstByTagNone(svgContent, "svg");
    if boundary.ParseThrows? then svgContent
    else match FirstByTag(svgContent, "svg")
      case None => svgContent
      case Some(p) =>
        if boundary.SerializeThrows? then svgContent
        else
          FirstByTagFound(svgContent, "svg");
          ReplaceAt(svgContent, p, Preview(SubtreeAt(svgContent, p).value, params, show))
  }

  /** One guarded block of `applyParams`, in place. */
  method SubstituteAttribute(element: Element, attr: string, token: string, value: string)
    modifies element
    ensures element.attrs == SubstituteOne(old(element.attrs), attr, token, value)
  {
    if attr in element.attrs || token in element.attrs {
      if attr in element.attrs && Includes(element.attrs[attr], token) {
        element.attrs := element.attrs[attr := value];
      }
    }
  }

  /** `applyParams`: the five guarded blocks on the element, then the children in order. */
  method ApplyParams(element: Element, params: SvgParams, show: real -> string)
    requires element.Valid()
    modifies element.repr
    ensures element.Serialize() == Preview(old(element.Serialize()), params, show)
    decreases element.repr
  {
    ghost var original := element.attrs;
    SubstituteAttribute(element, "fill", "param(fill)", params.fill);
    SubstituteAttribute(element, "fill-opacity", "param(fill-opacity)", show(params.fillOpacity));
    SubstituteAttribute(element, "stroke", "param(outline)", params.stroke);
    SubstituteAttribute(element, "stroke-opacity", "param(outline-opacity)", show(params.strokeOpacity));
    SubstituteAttribute(element, "stroke-width", "param(outline-width)", show(params.strokeWidth));
    ApplyBlocksIsSubstitution(original, params, show);
    assert element.attrs == SubstituteAttrs(original, params, show);
    var children := element.children;
    for k := 0 to |children|
      invariant element.attrs == SubstituteAttrs(original, params, show)
      invariant forall j | 0 <= j < k :: children[j].Serialize() == Preview(old(children[j].Serialize()), params, show)
      invariant forall j | k <= j < |children| :: children[j].Serialize() == old(children[j].Serialize())
    {
      ApplyParams(children[k], params, show);
      forall j | 0 <= j < |children| && j != k
        ensures children[j].repr !! children[k].repr
      {
      }
    }
  }

  /**
   * `applyParamsToSvg`: parses a private copy, substitutes below the first
   * `svg` element and serialises; without an `svg` element, or on any fault,
   * the input comes back.
   */
  method ApplyParamsToSvg(svgContent: Node, params: SvgParams, show: real -> string, boundary: Boundary) returns (r: Node)
    ensures r == ApplyParamsToSvgSpec(svgContent, params, show, boundary)
  {
    if boundary.ParseThrows? {
      return svgContent;
    }
    var doc := Parse(svgContent);
    var found := FirstByTag(doc.Serialize(), "svg");
    if found.None? {
      return svgContent;
    }
    var path := found.value;
    FirstByTagFound(svgContent, "svg");
    doc.ElementAtSubtree(path);
    var svgElement := doc.ElementAt(path).value;
    ghost var before := AttrsOf(doc.repr);
    SerializeIsWith(doc, before);
    SerializeIsWith(svgElement, before);
    ApplyParams(svgElement, params, show);
    ghost var after := AttrsOf(doc.repr);
    SerializeIsWith(doc, after);
    SerializeIsWith(svgElement, after);
    ChangedOnlyAt(doc, path, svgElement, before, after);
    if boundary.SerializeThrows? {
      return svgContent;
    }
    r := doc.Serialize();
  }

  /**
   * Every element of the tree is visited, whatever its tag: the previewed
   * tree has an element exactly where the input has one, with the same tag,
   * the same number of children and its attributes substituted.
   */
  lemma PreviewAt(n: Node, params: SvgParams, show: real -> string, q: Path)
    ensures SubtreeAt(Preview(n, params, show), q).Some? <==> SubtreeAt(n, q).Some?
    ensures SubtreeAt(n, q).Some? ==>
      var m, e := SubtreeAt(n, q).value, SubtreeAt(Preview(n, params, show), q).value;
      && e.tag == m.tag
      && |e.children| == |m.children|
      && e.attrs == SubstituteAttrs(m.attrs, params, show)
  {
    MapAttrsAt(n, SubstituteOf(params, show), q);
  }

  /** Substituting the same parameters twice is substituting once. */
  lemma SubstituteAttrsIdempotent(attrs: map<string, string>, params: SvgParams, show: real -> string)
    ensures SubstituteAttrs(SubstituteAttrs(attrs, params, show), params, show) == SubstituteAttrs(attrs, params, show)
  {
    var once := SubstituteAttrs(attrs, params, show);
    var twice := SubstituteAttrs(once, params, show);
    assert forall a | a in attrs :: twice[a] == once[a];
  }

  /** The walk with the same parameters twice is the walk once. */
  lemma {:induction false} PreviewIdempotent(n: Node, params: SvgParams, show: real -> string)
    ensures Preview(Preview(n, params, show), params, show) == Preview(n, params, show)
  {
    SubstituteAttrsIdempotent(n.attrs, params, show);
    forall i | 0 <= i < |n.children|
      ensures Preview(Preview(n.children[i], params, show), params, show) == Preview(n.children[i], params, show)
    {
      PreviewIdempotent(n.children[i], params, show);
    }
    assert Preview(Preview(n, params, show), params, show).children == Preview(n, params, show).children;
  }

  /**
   * Previewing a preview with the same parameters, under the same parse and
   * serialise outcome, gives it back.
   */
  lemma ApplyParamsToSvgIdempotent(svgContent: Node, params: SvgParams, show: real -> string, boundary: Boundary)
    ensures
      var once := ApplyParamsToSvgSpec(svgContent, params, show, boundary);
      ApplyParamsToSvgSpec(once, params, show, boundary) == once
  {
    if boundary.Clean? && FirstByTag(svgContent, "svg").Some? {
      var p := FirstByTag(svgContent, "svg").value;
      FirstByTagFound(svgContent, "svg");
      var sub := SubtreeAt(svgContent, p).value;
      var m := Preview(sub, params, show);
      var once := ReplaceAt(svgContent, p, m);
      MapAttrsSameShape(sub, SubstituteOf(params, show));
      ReplaceAtSameShape(svgContent, p, m);
      FirstByTagSameShape(once, svgContent, "svg");
      ReplaceAtTarget(svgContent, p, m);
      PreviewIdempotent(sub, params, show);
      ReplaceAtTwice(svgContent, p, m, m);
    }
  }

  /** Every style attribute present showing its live value, every other attribute kept. */
  function LiveAttrs(attrs: map<string, string>, params: SvgParams, show: real -> string): map<string, string> {
    map a | a in attrs :: if Substitution(a, params, show).Some? then Substitution(a, params, show).value.1 else attrs[a]
  }

  function LiveOf(params: SvgParams, show: real -> string): map<string, string> -> map<string, string> {
    attrs => LiveAttrs(attrs, params, show)
  }

  /** The previewer looks at exactly the attributes the exporter rewrites, for the tokens the exporter writes. */
  lemma StyleAttributesAreMapped(attr: string, params: SvgParams, show: real -> string)
    ensures Substitution(attr, params, show).Some? <==> SvgProcessor.TokenFor(attr).Some?
    ensures Substitution(attr, params, show).Some? ==> Substitution(attr, params, show).value.0 == SvgProcessor.TokenFor(attr).value
    ensures Substitution(attr, params, show).Some? <==> attr in StyleAttributes
  {
    SvgProcessor.TokenTable(attr);
  }

  /** Whether or not the original was kept, an exported value includes its token. */
  lemma RewrittenIncludesToken(token: string, original: string, preserveOriginal: bool)
    ensures Includes(SvgProcessor.Rewritten(token, original, preserveOriginal), token)
  {
    if preserveOriginal && original != "" {
      assert token + " " + original == token + (" " + original);
      IncludesPrefix(token, " " + original);
    } else {
      assert token + [] == token;
      IncludesPrefix(token, []);
    }
  }

  /**
   * The combined form: when the value is the token followed by anything, in
   * particular a preserved original, the whole value becomes the live value.
   */
  lemma CombinedFormReplaced(attrs: map<string, string>, params: SvgParams, show: real -> string, rest: string)
    requires "fill" in attrs && attrs["fill"] == "param(fill)" + rest
    ensures SubstituteAttrs(attrs, params, show)["fill"] == params.fill
  {
    IncludesPrefix("param(fill)", rest);
  }

  /**
   * Export followed by preview, on one element: every style attribute present
   * shows its live value, the originals are dropped, and every other
   * attribute is kept.
   */
  lemma PreviewOfExportAttrs(attrs: map<string, string>, preserveOriginal: bool, params: SvgParams, show: real -> string)
    ensures SubstituteAttrs(SvgProcessor.RewriteAttrs(attrs, preserveOriginal), params, show) == LiveAttrs(attrs, params, show)
  {
    var exported := SvgProcessor.RewriteAttrs(attrs, preserveOriginal);
    var shown := SubstituteAttrs(exported, params, show);
    forall a | a in attrs
      ensures shown[a] == LiveAttrs(attrs, params, show)[a]
    {
      StyleAttributesAreMapped(a, params, show);
      SvgProcessor.TokenTable(a);
      if SvgProcessor.TokenFor(a).Some? {
        RewrittenIncludesToken(SvgProcessor.TokenFor(a).value, attrs[a], preserveOriginal);
      }
    }
  }

  /** Export followed by preview on a tree is the live-value substitution of the original tree. */
  lemma {:induction false} PreviewOfExport(n: Node, preserveOriginal: bool, params: SvgParams, show: real -> string)
    ensures Preview(SvgProcessor.Export(n, preserveOriginal), params, show) == MapAttrs(n, LiveOf(params, show))
  {
    PreviewOfExportAttrs(n.attrs, preserveOriginal, params, show);
    forall i | 0 <= i < |n.children|
      ensures Preview(SvgProcessor.Export(n.children[i], preserveOriginal), params, show) == MapAttrs(n.children[i], LiveOf(params, show))
    {
      PreviewOfExport(n.children[i], preserveOriginal, params, show);
    }
    assert Preview(SvgProcessor.Export(n, preserveOriginal), params, show).children == MapAttrs(n, LiveOf(params, show)).children;
  }

  /**
   * The preview of a processed document shows the first `svg` subtree of the
   * uploaded one with every style attribute present set to its live value,
   * and the rest of the document as uploaded.
   */
  lemma PreviewOfProcessed(n: Node, preserveOriginal: bool, params: SvgParams, show: real -> string)
    requires SvgProcessor.ProcessSvgSpec(n, preserveOriginal, Clean).Success?
    ensures FirstByTag(n, "svg").Some? && SubtreeAt(n, FirstByTag(n, "svg").value).Some?
    ensures
      var p := FirstByTag(n, "svg").value;
      ApplyParamsToSvgSpec(SvgProcessor.ProcessSvgSpec(n, preserveOriginal, Clean).value, params, show, Clean)
        == ReplaceAt(n, p, MapAttrs(SubtreeAt(n, p).value, LiveOf(params, show)))
  {
    var p := FirstByTag(n, "svg").value;
    FirstByTagFound(n, "svg");
    var sub := SubtreeAt(n, p).value;
    var m := SvgProcessor.Export(sub, preserveOriginal);
    var out := ReplaceAt(n, p, m);
    MapAttrsSameShape(sub, SvgProcessor.RewriteOf(preserveOriginal));
    ReplaceAtSameShape(n, p, m);
    FirstByTagSameShape(out, n, "svg");
    ReplaceAtTarget(n, p, m);
    PreviewOfExport(sub, preserveOriginal, params, show);
    ReplaceAtTwice(n, p, m, Preview(m, params, show));
  }

  /** An attribute merely named like a token is no reason to add the style attribute. */
  lemma TokenNamedAttributeIgnored(params: SvgParams, show: real -> string)
    ensures
      var attrs := map["param(fill)" := "param(fill)", "param(outline)" := "x"];
      SubstituteAttrs(attrs, params, show) == attrs
  {
    var attrs := map["param(fill)" := "param(fill)", "param(outline)" := "x"];
    var r := SubstituteAttrs(attrs, params, show);
    assert "param(fill)" !in StyleAttributes && "param(outline)" !in StyleAttributes;
    assert r.Keys == attrs.Keys;
  }
}
