# QGIS SVG Customizer — a verified model of its core

QGIS SVG Customizer turns an ordinary SVG image into one that QGIS can restyle. Five style attributes are rewritten into placeholder tokens:

| attribute | token |
|---|---|
| `fill` | `param(fill)` |
| `fill-opacity` | `param(fill-opacity)` |
| `stroke` | `param(outline)` |
| `stroke-opacity` | `param(outline-opacity)` |
| `stroke-width` | `param(outline-width)` |

The original value can be kept after the token. A live preview puts the user's colours, opacities and width back in, in place of the tokens.

This project models in Dafny:

- the exporter (`replaceAttributes`, `processSvg`);
- the previewer (`applyParamsToSvg`, the inner `applyParams`, `SvgParams`, `defaultParams`);
- the rules of the `App` component: which uploads are accepted, what is downloaded under which name, and the state changes on upload, load, parameter edits, download and reset.

It proves properties of each.

Files and modules:

- `wrappers.dfy` (`Wrappers`): `Option` and `Result`.
- `text.dfy` (`Text`): the string operations the core uses: `includes`, `endsWith`, `toLowerCase`.
- `tree.dfy` (`Tree`): an SVG document as a value.
  - A `Node` has a tag, a map of attributes and ordered children.
  - SVG text is identified with the tree the browser's parser makes of it.
  - `querySelector('svg')` is `FirstByTag`, the first element with that tag in document order.
  - `MapAttrs` is the walk both transforms share: it replaces the attributes of every element, whatever its tag, and nothing else.
- `dom.dfy` (`Dom`): the mutable DOM the walks run on.
  - Class `Element` has a fixed tag and children and an attribute map updated in place.
  - `Parse` stands for `DOMParser`. It builds a fresh element tree.
  - `Serialize` stands for `XMLSerializer`. It reads the tree back as a value.
  - Whether the parser or the serialiser throws, and what it throws, is a parameter (`Boundary`).
- `svg_processor.dfy` (`SvgProcessor`): the exporter.
  - `ReplaceAttributes` rewrites the attributes in place. It is proved to compute `Export` of the subtree it is given.
  - `ProcessSvg` is proved to compute `ProcessSvgSpec`. That covers the lookup of the first `svg` element, the rewrite of that subtree only, and the error messages.
- `svg_preview.dfy` (`SvgPreview`): the previewer, with the same layout.
  - `ApplyParams` runs the five guarded blocks and then recurses.
  - `ApplyParamsToSvg` fails open: on any failure it returns its input.
- `app.dfy` (`AppShell`): the state of the `App` component as class `App`, plus the pure rules it uses.
  - The pure rules are the extension check, the download name, the copy-on-write parameter update and the download choice.

The default parameters are the constant `SvgPreview.DefaultParams`: fill `#667eea`, fill opacity 0.8, stroke `#764ba2`, stroke opacity 1, stroke width 2.

The exporter walks every element with no tag filter, rewrites only attributes that are present, and keeps any non-empty original, `none` included (src/utils/svgProcessor.ts:11-17,21-25).

`SvgProcessor.ExportExample` proves the code's result for a red rectangle with no stroke: `fill` becomes `param(fill) #ff0000`, `stroke` becomes `param(outline) none`, and nothing is added.

## Model

| member | source | states |
|---|---|---|
| Text.ToLower | src/App.tsx:26 | The lower-cased name has the same length, and each character is the lower-case form of the character at the same place. |
| Text.IncludesIff | src/utils/svgPreview.ts:29 | `includes` holds exactly when the token occurs in the value at some offset. |
| Tree.MapAttrsAt | src/utils/svgProcessor.ts:21-25 | The walk visits every element whatever its tag. The result has an element exactly where the input has one, with the same tag, the same number of children and the walked attributes. |
| Tree.FirstByTagFound | src/utils/svgProcessor.ts:32 | `Tree.FirstByTag` is `querySelector('svg')`, here and at src/utils/svgPreview.ts:21. What it finds is an element tagged `svg`. |
| Tree.FirstByTagIsFirst | src/utils/svgProcessor.ts:32 | If any element is tagged `svg`, one is found, and no `svg` element comes before the found one in document order. |
| Tree.FirstByTagNone | src/utils/svgProcessor.ts:32-34 | Nothing is found exactly when no element of the document is tagged `svg`. |
| Dom.Parse | src/utils/svgProcessor.ts:30-31 | Parsing builds a valid, freshly allocated element tree that serialises back to the document. |
| SvgProcessor.AttributeMapDistinct | src/utils/svgProcessor.ts:1-7 | The five attribute names of the map are distinct. |
| SvgProcessor.TokenTable | src/utils/svgProcessor.ts:1-7 | Lookup in the attribute map gives exactly the five tokens for the five names, and nothing for any other name. |
| SvgProcessor.RewriteEntriesAt | src/utils/svgProcessor.ts:10-19 | After the loop over the attribute map, the attribute names are the same. Each mapped attribute that was present is rewritten, and every other attribute is kept. |
| SvgProcessor.RewriteAttrs | src/utils/svgProcessor.ts:10-19 | Nothing is added or removed. A present mapped attribute becomes `SvgProcessor.Rewritten` of its token and value (lines 12-17): the token alone, or the token, a space and the original when originals are kept and the original is non-empty. Unmapped attributes are unchanged. |
| SvgProcessor.ReplaceAttributes | src/utils/svgProcessor.ts:9-26 | The in-place rewrite of an element and all its descendants leaves the subtree serialising to `Export` of what it serialised to before. |
| SvgProcessor.ProcessSvg | src/utils/svgProcessor.ts:28-45 | Parses, rewrites the first `svg` element's subtree in place and serialises, or fails with the wrapped message, exactly as `ProcessSvgSpec` describes. |
| SvgProcessor.ExportAt | src/utils/svgProcessor.ts:9-26 | Every element of the subtree is rewritten whatever its tag. Tags, child counts and child order are unchanged. |
| SvgProcessor.RewriteAttrsIdempotent | src/utils/svgProcessor.ts:16 | Without keeping originals, rewriting an element's attributes twice is rewriting them once. |
| SvgProcessor.ExportIdempotent | src/utils/svgProcessor.ts:9-26 | Without keeping originals, exporting a tree twice is exporting it once. |
| SvgProcessor.RewriteAttrsLayers | src/utils/svgProcessor.ts:12-14 | Keeping originals, a second rewrite gives `token token v`. |
| SvgProcessor.PreservingExportNotIdempotent | src/utils/svgProcessor.ts:14 | Keeping originals, exporting twice differs from exporting once, for `fill="red"`. |
| SvgProcessor.ExportExample | src/utils/svgProcessor.ts:11-17 | The rectangle with `fill="#ff0000"` and `stroke="none"` is exported as `param(fill) #ff0000` and `param(outline) none`, with no attribute added. |
| SvgProcessor.ProcessSvgFailsWithoutSvg | src/utils/svgProcessor.ts:34-43 | With no parser or serialiser fault, processing fails exactly when the document has no `svg` element. The message is then `Failed to process SVG: Invalid SVG: No svg element found`. |
| SvgProcessor.NoSvgFailureText | src/utils/svgProcessor.ts:35-43 | `SvgProcessor.FailureMessage` is the wrapping message of line 43: `Failed to process SVG: ` and the thrown message, or `Unknown error` for a value that is not an `Error`. For a document without an `svg` element it is `Failed to process SVG: Invalid SVG: No svg element found`. |
| SvgProcessor.ProcessSvgOnlyFirstSvg | src/utils/svgProcessor.ts:32-38 | The first `svg` element in document order is replaced by its export. Every element outside its subtree keeps its tag, attributes and number of children. |
| SvgProcessor.ProcessSvgIdempotent | src/utils/svgProcessor.ts:28-45 | With no parser or serialiser fault and without keeping originals, processing the output of processing gives it back. |
| SvgPreview.DefaultParamsWithinControls | src/utils/svgPreview.ts:9-15 | `SvgPreview.DefaultParams` is `defaultParams`: fill `#667eea`, fill opacity 0.8, stroke `#764ba2`, stroke opacity 1, stroke width 2. Both colours are `#` and six hexadecimal digits, the opacities lie in the sliders' range 0 to 1, and the width in the width slider's range 0 to 10 (src/App.tsx:175-176,214-215). |
| SvgPreview.SubstituteOne | src/utils/svgPreview.ts:28-32 | The outer guard, which also fires on an attribute literally named like the token, has no effect. The attribute is set exactly when its value includes the token. |
| SvgPreview.SubstituteAttrs | src/utils/svgPreview.ts:27-56 | Substitution adds and removes no attribute and leaves every attribute other than the five unchanged. |
| SvgPreview.ApplyBlocksIsSubstitution | src/utils/svgPreview.ts:28-56 | `SvgPreview.ApplyBlocks` is the five guarded blocks as written. Run in order, they substitute each of the five attributes independently. |
| SvgPreview.SubstituteAttrsTable | src/utils/svgPreview.ts:28-56 | Each of the five attributes, when present, becomes its live value (numbers through their string form) if its value includes its token, and is unchanged otherwise. |
| SvgPreview.BlockStep | src/utils/svgPreview.ts:28-56 | Each block substitutes its own attribute and no other. |
| SvgPreview.ApplyParamsToSvgSpec | src/utils/svgPreview.ts:17-73 | Fail-open: with any parser or serialiser fault, or with no `svg` element anywhere, the input is returned unchanged. |
| SvgPreview.SubstituteAttribute | src/utils/svgPreview.ts:28-32 | One guarded block changes the element's attributes as `SubstituteOne` says. |
| SvgPreview.ApplyParams | src/utils/svgPreview.ts:27-63 | The in-place substitution of an element and all its descendants leaves the subtree serialising to `Preview` of what it serialised to before. |
| SvgPreview.ApplyParamsToSvg | src/utils/svgPreview.ts:17-73 | Parses, substitutes below the first `svg` element and serialises, or returns the input, exactly as `ApplyParamsToSvgSpec` describes. |
| SvgPreview.PreviewAt | src/utils/svgPreview.ts:58-65 | Every descendant is substituted whatever its tag. Tags, child counts and child order are unchanged. |
| SvgPreview.SubstituteAttrsIdempotent | src/utils/svgPreview.ts:27-56 | Substituting the same parameters twice is substituting once. |
| SvgPreview.PreviewIdempotent | src/utils/svgPreview.ts:27-63 | The walk with the same parameters twice is the walk once. |
| SvgPreview.ApplyParamsToSvgIdempotent | src/utils/svgPreview.ts:17-73 | Previewing a preview with the same parameters and the same fault outcome gives it back. |
| SvgPreview.StyleAttributesAreMapped | src/utils/svgPreview.ts:28-56 | The previewer substitutes exactly the attributes the exporter rewrites, looking for the tokens the exporter writes. |
| SvgPreview.RewrittenIncludesToken | src/utils/svgProcessor.ts:13-17 | An exported value, bare or with its original, includes its token. |
| SvgPreview.CombinedFormReplaced | src/utils/svgPreview.ts:29-30 | A `fill` that starts with `param(fill)`, as the combined form `param(fill) #ff0000` does, becomes the live fill as a whole. The kept original is dropped. |
| SvgPreview.PreviewOfExportAttrs | src/utils/svgPreview.ts:28-56 | Export followed by preview on one element shows the live value in every one of the five attributes present, whether or not originals were kept, and keeps every other attribute. |
| SvgPreview.PreviewOfExport | src/utils/svgPreview.ts:27-63 | Export followed by preview on a tree is the live-value substitution of the original tree. |
| SvgPreview.PreviewOfProcessed | src/utils/svgPreview.ts:17-73 | With no parser or serialiser fault, in processing or in the preview, the preview of a processed document is the uploaded document with the first `svg` subtree showing live values in every style attribute present. |
| SvgPreview.TokenNamedAttributeIgnored | src/utils/svgPreview.ts:28-29 | Attributes literally named `param(fill)` or `param(outline)` do not make a `fill` or `stroke` appear, and are themselves kept. |
| AppShell.SuffixTestsAgree | src/App.tsx:85 | `AppShell.MatchesSvgSuffix` is the test `/\.svg$/i` of this line. `AppShell.HasSvgExtension` is the upload check of src/App.tsx:26. The case-insensitive pattern matches exactly the names that pass the lower-case extension check. |
| AppShell.DownloadName | src/App.tsx:85 | A name with the `.svg` extension, in any case, has it replaced by `-qgis.svg` and keeps its prefix. Any other name is unchanged. |
| AppShell.DownloadNameRewrites | src/App.tsx:85 | A name is rewritten exactly when it has the extension. The rewritten name ends in `-qgis.svg` and passes the extension check again. |
| AppShell.WithParam | src/App.tsx:105-107 | The new record has the new value in the edited field and the old value in every other field. |
| AppShell.WithParamSame | src/App.tsx:105-107 | Writing back a field's own value gives the same record. |
| AppShell.DownloadFor | src/App.tsx:79-91 | Download happens only when the processed document, the file name and the uploaded document are all set. The name is the download name. Without keeping originals, the content is the processed document. With them, the upload is processed again keeping originals, and a failure gives its message. |
| AppShell.App.constructor | src/App.tsx:7-13 | The initial state: nothing uploaded, empty name and error, default parameters, originals not kept. |
| AppShell.App.PreviewSvg | src/App.tsx:16-18 | There is a preview exactly when there is a processed document. The preview is that document with the current parameters applied. |
| AppShell.App.HandleFile | src/App.tsx:20-31 | Error, name and both documents are cleared. A name failing the extension check `AppShell.HasSvgExtension` (line 26) gives `Please upload a valid SVG file`. Otherwise a read starts, carrying the current keep-originals setting. |
| AppShell.App.OnLoad | src/App.tsx:32-42 | The uploaded document and the name are recorded before processing. Success sets the processed document. Failure sets the error to the thrown message and leaves the processed document as it was. |
| AppShell.App.OnReadError | src/App.tsx:43-45 | A failed read sets the error to `Failed to read file` and changes nothing else. |
| AppShell.App.HandleDownload | src/App.tsx:79-91 | Offers what `DownloadFor` gives; an offered file's name ends in `-qgis.svg`, because the recorded name passed the extension check. A failed reprocessing sets the error to its message. Nothing else changes. |
| AppShell.App.HandleReset | src/App.tsx:93-99 | Both documents, the name and the error are cleared, the default parameters are restored and originals are no longer kept. |
| AppShell.App.ResetParams | src/App.tsx:238 | The Reset Parameters button restores the default parameters and changes nothing else. |
| AppShell.App.SetPreserveOriginal | src/App.tsx:230 | The checkbox sets the keep-originals switch and changes nothing else. |
| AppShell.App.HandleParamChange | src/App.tsx:105-107 | The parameters become the copy with the edited field replaced. Nothing else changes. |

Every state change of `App` keeps its invariant `Valid`:
- a recorded file name passes the extension check;
- a processed document comes with an uploaded document and a name.

## Left out

- The text side of `DOMParser` and `XMLSerializer` is not modelled: SVG text is identified with its element tree. Serialisation may reformat whitespace and namespaces; only the tree is modelled.
- A browser parser reports malformed XML as a document containing an error element rather than by throwing. That document is just another tree here; a throw anywhere in the boundary is the `Boundary` parameter.
- Text, comment and other non-element nodes are not represented. Both walks go through `children`, which holds elements only, so the `instanceof Element` test always passes.
- Opacities and the width are `real`. Their `toString` is the `show` parameter, because number formatting is floating-point printing. The `toFixed` display next to the sliders and the `parseFloat` of slider input are not modelled.
- Text.ToLower: covers ASCII letters only. No other character lower-cases to `.`, `s`, `v` or `g`, so the extension check and the download-name rule come out the same as with full Unicode lower-casing.
- AppShell.WithParam: requires the value's kind (text or number) to match the field. The TypeScript signature would also accept a mismatched value, which the record type here cannot hold; every caller in the component passes a matching kind.
- AppShell.App.OnLoad: the error is the failure message. The `Failed to process SVG` fallback for a non-`Error` thrown value is not modelled, because `processSvg` only ever throws an `Error`. The same goes for `Failed to generate SVG for download` in `HandleDownload`.
- `FileReader` is modelled as two events after `HandleFile`: `OnLoad` with the contents, or `OnReadError`. As in the code, a late load from an earlier upload is not told apart from the current one. `PendingRead` carries the keep-originals setting captured when the upload started.
- Documents are `Option<Node>` rather than possibly-empty text, so the truthiness test on an empty string is not modelled. A processed document is never empty text.
- `downloadSvg` (Blob, object URL, link click) is not part of this model. `HandleDownload` returns the file to be saved.
- Drag and drop, the hidden file input and its reset, `isDragging`, all JSX rendering and `console.error` logging are UI and I/O and are left out.
- React's batching of state setters is not modelled. Each handler's setter calls are applied in order, which gives the same final state.
