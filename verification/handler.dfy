/** The static-file handler: the embedded reload script is served at its
    fixed path, `/` is served as the index page, and HTML pages get the
    reload script tag spliced in before their first closing body tag. The
    file system is a map from the routed request path to the bytes the file
    at that path holds. */
module Handler {
  import opened Wrappers
  import Paths
  import opened Splice

  /** The fixed name the reload script is served under. */
  const JsFile: string := "35b96a650c2fbb93d23dd81116b561b8.js"

  /** The closing body tag the script is inserted before. */
  const BodyClose: seq<byte> := "</body>"

  /** The element that loads the reload script. */
  const ScriptElement: seq<byte> := "<script src=\"/" + JsFile + "\"></script>"

  /** What the handler writes back. `NothingWritten` is the missing-file
      case, which only logs. */
  datatype Response =
    | EmbeddedScript
    | NothingWritten
    | File(contentType: Option<string>, body: seq<byte>)

  /** The request path after the index rewrite. */
  function Route(urlPath: string, indexPage: string): (p: string)
    ensures urlPath != "/" ==> p == urlPath
    ensures urlPath == "/" ==> p == "/" + indexPage
  {
    if urlPath == "/" then "/" + indexPage else urlPath
  }

  /** The page with the script element inserted before its first closing body
      tag. */
  function InjectScript(page: seq<byte>): (r: seq<byte>)
    ensures Index(page, BodyClose).None? ==> r == page
    ensures Index(page, BodyClose).Some? ==> |r| == |page| + |ScriptElement|
  {
    ReplaceFirst(page, BodyClose, ScriptElement + BodyClose)
  }

  /** One request for `urlPath`. */
  function Handle(urlPath: string, indexPage: string, files: map<string, seq<byte>>): (resp: Response)
    ensures resp.EmbeddedScript? <==> urlPath == "/" + JsFile
    ensures resp.NothingWritten? <==> urlPath != "/" + JsFile && Route(urlPath, indexPage) !in files
    ensures resp.File? ==> resp.contentType == (if Paths.Ext(Route(urlPath, indexPage)) == ".css" then Some("text/css") else None)
    ensures resp.File? && Paths.Ext(Route(urlPath, indexPage)) == ".html" ==> resp.body == InjectScript(files[Route(urlPath, indexPage)])
    ensures resp.File? && Paths.Ext(Route(urlPath, indexPage)) != ".html" ==> resp.body == files[Route(urlPath, indexPage)]
  {
    if urlPath == "/" + JsFile then EmbeddedScript
    else
      var p := Route(urlPath, indexPage);
      var ext := Paths.Ext(p);
      if p !in files then NothingWritten
      else
        var contentType := if ext == ".css" then Some("text/css") else None;
        var body := if ext == ".html" then InjectScript(files[p]) else files[p];
        File(contentType, body)
  }

  /** The script element is inserted immediately before the first closing
      body tag and every byte of the page is kept, later closing body tags
      included; taking the element out again gives the page back. */
  lemma InjectBeforeFirstBodyClose(page: seq<byte>, i: nat)
    requires Index(page, BodyClose) == Some(i)
    ensures i <= |page|
    ensures InjectScript(page) == page[..i] + ScriptElement + page[i..]
    ensures InjectScript(page)[..i] + InjectScript(page)[i + |ScriptElement|..] == page
  {
    var element := ScriptElement;
    var r := InjectScript(page);
    InsertBeforeFirst(page, BodyClose, element, i);
    assert r[..i] == page[..i];
    assert r[i + |element|..] == page[i..];
  }

  /** The script path is answered from memory, whatever the file system
      holds. */
  lemma ScriptPathShortCircuits(indexPage: string, files: map<string, seq<byte>>)
    ensures Handle("/" + JsFile, indexPage, files) == EmbeddedScript
  {
  }

  /** `/` is served as the index page, and an HTML index page gets the
      script. */
  lemma IndexPageInjected(indexPage: string, files: map<string, seq<byte>>)
    requires "/" + indexPage in files
    requires Paths.Ext("/" + indexPage) == ".html"
    ensures Handle("/", indexPage, files) == File(None, InjectScript(files["/" + indexPage]))
  {
    assert "/" != "/" + JsFile by {
      assert |"/" + JsFile| > 1;
    }
  }

  /** Every file that is not HTML, and every HTML page without a closing body
      tag, is served byte for byte. */
  lemma UnchangedUnlessHtmlWithBody(urlPath: string, indexPage: string, files: map<string, seq<byte>>)
    requires urlPath != "/" + JsFile
    requires Route(urlPath, indexPage) in files
    requires Paths.Ext(Route(urlPath, indexPage)) != ".html" || Index(files[Route(urlPath, indexPage)], BodyClose).None?
    ensures Handle(urlPath, indexPage, files).body == files[Route(urlPath, indexPage)]
  {
  }
}
