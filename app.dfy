/**
 * The application shell: which uploads are accepted, what is offered for
 * download under which name, and how the component state moves between
 * upload, processing, parameter edits, download and reset.
 */
module AppShell {
  import opened Wrappers
  import opened Text
  import opened Tree
  import opened Dom
  import SvgProcessor
  import opened SvgPreview

  /** The upload check: the lower-cased file name ends with `.svg`. */
  predicate HasSvgExtension(name: string) {
    EndsWith(ToLower(name), ".svg")
  }

  /**
   * The pattern `/\.svg$/i` matches `name`: its last four characters are
   * `.svg` compared case-insensitively, by upper-casing both sides.
   */
  predicate MatchesSvgSuffix(name: string) {
    |name| >= 4 && forall i | 0 <= i < 4 :: UpperChar(name[|name| - 4 + i]) == UpperChar(".svg"[i])
  }

  /** The two spellings of the `.svg` test agree. */
  lemma {:induction false} SuffixTestsAgree(name: string)
    ensures MatchesSvgSuffix(name) <==> HasSvgExtension(name)
  {
    var lower := ToLower(name);
    if |name| >= 4 {
      var k := |name| - 4;
      forall i | 0 <= i < 4
        ensures UpperChar(name[k + i]) == UpperChar(".svg"[i]) <==> lower[k + i] == ".svg"[i]
      {
      }
      assert EndsWith(lower, ".svg") <==> forall i | 0 <= i < 4 :: lower[k + i] == ".svg"[i] by {
        if forall i | 0 <= i < 4 :: lower[k + i] == ".svg"[i] {
          assert lower[k..] == ".svg";
        }
      }
    }
  }

  /**
   * The download name: a trailing `.svg`, in any case, becomes `-qgis.svg`
   * and the rest of the name is kept; any other name is kept as it is.
   */
  function DownloadName(fileName: string): (r: string)
    ensures HasSvgExtension(fileName) ==> r == fileName[..|fileName| - 4] + "-qgis.svg"
    ensures !HasSvgExtension(fileName) ==> r == fileName
  {
    SuffixTestsAgree(fileName);
    if MatchesSvgSuffix(fileName) then fileName[..|fileName| - 4] + "-qgis.svg" else fileName
  }

  /** A name is rewritten exactly when an upload under it is accepted, and the rewritten name is accepted again. */
  lemma DownloadNameRewrites(fileName: string)
    ensures DownloadName(fileName) != fileName <==> HasSvgExtension(fileName)
    ensures HasSvgExtension(fileName) ==> EndsWith(DownloadName(fileName), "-qgis.svg") && HasSvgExtension(DownloadName(fileName))
  {
    if HasSvgExtension(fileName) {
      var prefix := fileName[..|fileName| - 4];
      var r := prefix + "-qgis.svg";
      assert DownloadName(fileName) == r;
      assert |r| == |fileName| + 5;
      assert r[|r| - 9..] == "-qgis.svg";
      assert EndsWith(r, "-qgis.svg");
      assert r[|r| - 4..] == ".svg";
      assert MatchesSvgSuffix(r) by {
        forall i | 0 <= i < 4
          ensures r[|r| - 4 + i] == ".svg"[i]
        {
          assert r[|r| - 4 + i] == r[|r| - 4..][i];
        }
      }
      SuffixTestsAgree(r);
    }
  }

  /** The keys of `SvgParams`. */
  datatype Field = Fill | FillOpacity | Stroke | StrokeOpacity | StrokeWidth

  /** A parameter value: a colour as text, or a number. */
  datatype ParamValue = Text(text: string) | Number(number: real)

  /** The value `params[key]`. */
  function Get(params: SvgParams, key: Field): ParamValue {
    match key
    case Fill => Text(params.fill)
    case FillOpacity => Number(params.fillOpacity)
    case Stroke => Text(params.stroke)
    case StrokeOpacity => Number(params.strokeOpacity)
    case StrokeWidth => Number(params.strokeWidth)
  }

  /** The colour fields take text, the others numbers. */
  predicate FitsField(key: Field, value: ParamValue) {
    if key == Fill || key == Stroke then value.Text? else value.Number?
  }

  /** `{ ...prev, [key]: value }`: a new record that differs from `prev` in the edited field only. */
  function WithParam(prev: SvgParams, key: Field, value: ParamValue): (r: SvgParams)
    requires FitsField(key, value)
    ensures Get(r, key) == value
    ensures forall f | f != key :: Get(r, f) == Get(prev, f)
  {
    match key
    case Fill => prev.(fill := value.text)
    case FillOpacity => prev.(fillOpacity := value.number)
    case Stroke => prev.(stroke := value.text)
    case StrokeOpacity => prev.(strokeOpacity := value.number)
    case StrokeWidth => prev.(strokeWidth := value.number)
  }

  /** Two records with the same value in every field are the same record. */
  lemma ParamsByFields(p: SvgParams, q: SvgParams)
    requires forall f :: Get(p, f) == Get(q, f)
    ensures p == q
  {
    assert Get(p, Fill) == Get(q, Fill) && Get(p, FillOpacity) == Get(q, FillOpacity);
    assert Get(p, Stroke) == Get(q, Stroke) && Get(p, StrokeOpacity) == Get(q, StrokeOpacity);
    assert Get(p, StrokeWidth) == Get(q, StrokeWidth);
  }

  /** Writing back the value a field already has gives the same record. */
  lemma WithParamSame(prev: SvgParams, key: Field)
    ensures FitsField(key, Get(prev, key)) && WithParam(prev, key, Get(prev, key)) == prev
  {
    var r := WithParam(prev, key, Get(prev, key));
    ParamsByFields(r, prev);
  }

  /** A file accepted by the upload check whose contents are being read; the reader will deliver them with the preserve setting of the moment of upload. */
  datatype PendingRead = PendingRead(name: string, preserveOriginal: bool)

  /** A file handed to the browser for saving. */
  datatype Download = Download(content: Node, name: string)

  /**
   * What the download button produces: nothing unless a processed document,
   * a file name and an uploaded document are all there; otherwise the
   * error message of a failed reprocessing, or the document and its name.
   * With originals preserved, the uploaded document is processed again with
   * them kept; otherwise the processed document is offered.
   */
  function DownloadFor(processedSvg: Option<Node>, fileName: string, originalSvg: Option<Node>, preserveOriginal: bool, boundary: Boundary): (r: Option<Result<Download, string>>)
    ensures r.Some? <==> processedSvg.Some? && fileName != "" && originalSvg.Some?
    ensures r.Some? && r.value.Success? ==> r.value.value.name == DownloadName(fileName)
    ensures r.Some? && r.value.Success? && !preserveOriginal ==> r.value.value.content == processedSvg.value
    ensures r.Some? && preserveOriginal ==>
      match SvgProcessor.ProcessSvgSpec(originalSvg.value, true, boundary)
      case Success(doc) => r.value == Success(Download(doc, DownloadName(fileName)))
      case Failure(message) => r.value == Failure(message)
    ensures r.Some? && r.value.Failure? ==> preserveOriginal
  {
    if processedSvg.Some? && fileName != "" && originalSvg.Some? then
      var content :=
        if preserveOriginal then SvgProcessor.ProcessSvgSpec(originalSvg.value, true, boundary)
        else Success(processedSvg.value);
      match content
      case Failure(message) => Some(Failure(message))
      case Success(doc) => Some(Success(Download(doc, DownloadName(fileName))))
    else None
  }

  /**
   * The state of the `App` component: the uploaded and processed documents,
   * the accepted file name, the error shown, the preview parameters and the
   * preserve-originals switch.
   */
  class App {
    var originalSvg: Option<Node>
    var processedSvg: Option<Node>
    var fileName: string
    var error: string
    var params: SvgParams
    var preserveOriginal: bool

    /** A file name is only ever one that passed the upload check, and a processed document comes with its upload and its name. */
    ghost predicate Valid()
      reads this
    {
      && (fileName != "" ==> HasSvgExtension(fileName))
      && (processedSvg.Some? ==> originalSvg.Some? && fileName != "")
    }

    /** The initial state: nothing uploaded, no error, the default parameters, originals not preserved. */
    constructor ()
      ensures Valid()
      ensures originalSvg == None && processedSvg == None && fileName == "" && error == ""
      ensures params == DefaultParams && !preserveOriginal
    {
      originalSvg := None;
      processedSvg := None;
      fileName := "";
      error := "";
      params := DefaultParams;
      preserveOriginal := false;
    }

    /**
     * `previewSvg`: the processed document with the live parameters put in,
     * recomputed from the current state; nothing before a document is
     * processed.
     */
    function PreviewSvg(show: real -> string, boundary: Boundary): (r: Option<Node>)
      reads this
      ensures r.Some? <==> processedSvg.Some?
      ensures r.Some? ==> r.value == ApplyParamsToSvgSpec(processedSvg.value, params, show, boundary)
    {
      if processedSvg.Some? then Some(ApplyParamsToSvgSpec(processedSvg.value, params, show, boundary)) else None
    }

    /**
     * `handleFile`: clears the error, the name and both documents; then
     * either rejects the name with an error, or starts reading the file.
     */
    method HandleFile(name: string) returns (read: Option<PendingRead>)
      requires Valid()
      modifies this
      ensures Valid()
      ensures originalSvg == None && processedSvg == None && fileName == ""
      ensures read.Some? <==> HasSvgExtension(name)
      ensures read.Some? ==> read.value == PendingRead(name, preserveOriginal) && error == ""
      ensures read.None? ==> error == "Please upload a valid SVG file"
      ensures params == old(params) && preserveOriginal == old(preserveOriginal)
    {
      error := "";
      fileName := "";
      originalSvg := None;
      processedSvg := None;
      if !HasSvgExtension(name) {
        error := "Please upload a valid SVG file";
        return None;
      }
      read := Some(PendingRead(name, preserveOriginal));
    }

    /**
     * The reader's `onload`: records the contents and the name first, then
     * processes the contents; a failure sets the error to the thrown
     * message and leaves the processed document as it was.
     */
    method OnLoad(read: PendingRead, content: Node, boundary: Boundary)
      requires Valid() && HasSvgExtension(read.name)
      modifies this
      ensures Valid()
      ensures originalSvg == Some(content) && fileName == read.name
      ensures
        match SvgProcessor.ProcessSvgSpec(content, read.preserveOriginal, boundary)
        case Success(doc) => processedSvg == Some(doc) && error == old(error)
        case Failure(message) => processedSvg == old(processedSvg) && error == message
      ensures params == old(params) && preserveOriginal == old(preserveOriginal)
    {
      originalSvg := Some(content);
      fileName := read.name;
      var processed := SvgProcessor.ProcessSvg(content, read.preserveOriginal, boundary);
      match processed
      case Success(doc) =>
        processedSvg := Some(doc);
      case Failure(message) =>
        error := message;
    }

    /** The reader's `onerror`. */
    method OnReadError()
      requires Valid()
      modifies this
      ensures Valid()
      ensures error == "Failed to read file"
      ensures originalSvg == old(originalSvg) && processedSvg == old(processedSvg) && fileName == old(fileName)
      ensures params == old(params) && preserveOriginal == old(preserveOriginal)
    {
      error := "Failed to read file";
    }

    /**
     * `handleDownload`: offers what `DownloadFor` gives; a failure sets the
     * error to its message; nothing else changes.
     */
    method HandleDownload(boundary: Boundary) returns (download: Option<Download>)
      requires Valid()
      modifies this
      ensures Valid()
      ensures
        var r := DownloadFor(old(processedSvg), old(fileName), old(originalSvg), old(preserveOriginal), boundary);
        && (download.Some? <==> r.Some? && r.value.Success?)
        && (download.Some? ==> download.value == r.value.value)
        && error == (if r.Some? && r.value.Failure? then r.value.error else old(error))
      ensures download.Some? ==> EndsWith(download.value.name, "-qgis.svg")
      ensures originalSvg == old(originalSvg) && processedSvg == old(processedSvg) && fileName == old(fileName)
      ensures params == old(params) && preserveOriginal == old(preserveOriginal)
    {
      download := None;
      if processedSvg.Some? && fileName != "" && originalSvg.Some? {
        var svgToDownload: Node;
        if preserveOriginal {
          var reprocessed := SvgProcessor.ProcessSvg(originalSvg.value, true, boundary);
          if reprocessed.Failure? {
            error := reprocessed.error;
            return;
          }
          svgToDownload := reprocessed.value;
        } else {
          svgToDownload := processedSvg.value;
        }
        DownloadNameRewrites(fileName);
        var newFileName := DownloadName(fileName);
        download := Some(Download(svgToDownload, newFileName));
      }
    }

    /** `handleReset`: back to the initial state. */
    method HandleReset()
      requires Valid()
      modifies this
      ensures Valid()
      ensures originalSvg == None && processedSvg == None && fileName == "" && error == ""
      ensures params == DefaultParams && !preserveOriginal
    {
      originalSvg := None;
      processedSvg := None;
      fileName := "";
      error := "";
      params := DefaultParams;
      preserveOriginal := false;
    }

    /** The Reset Parameters button: the default parameters, and nothing else changes. */
    method ResetParams()
      requires Valid()
      modifies this
      ensures Valid()
      ensures params == DefaultParams
      ensures originalSvg == old(originalSvg) && processedSvg == old(processedSvg) && fileName == old(fileName)
      ensures error == old(error) && preserveOriginal == old(preserveOriginal)
    {
      params := DefaultParams;
    }

    /** The preserve-originals checkbox. */
    method SetPreserveOriginal(checked: bool)
      requires Valid()
      modifies this
      ensures Valid()
      ensures preserveOriginal == checked
      ensures originalSvg == old(originalSvg) && processedSvg == old(processedSvg) && fileName == old(fileName)
      ensures error == old(error) && params == old(params)
    {
      preserveOriginal := checked;
    }

    /** `handleParamChange`: the edited field takes the new value, and nothing else changes. */
    method HandleParamChange(key: Field, value: ParamValue)
      requires Valid() && FitsField(key, value)
      modifies this
      ensures Valid()
      ensures params == WithParam(old(params), key, value)
      ensures originalSvg == old(originalSvg) && processedSvg == old(processedSvg) && fileName == old(fileName)
      ensures error == old(error) && preserveOriginal == old(preserveOriginal)
    {
      params := WithParam(params, key, value);
    }
  }
}
