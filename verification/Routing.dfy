/**
 * Request dispatch of `do_GET` and `handle_text_file` (server.py), and the
 * simpler `do_GET` of server2.py. File-system facts about the translated
 * path (`is_file`, `is_dir`), the guessed MIME type and the parsed query
 * values are inputs: `translate_path`, `mimetypes` and `parse_qs` are not
 * part of this model.
 */
module Routing {
  import opened Wrappers
  import opened Strings
  import opened Html
  import Rows

  const StaticPrefix: string := "/static/"

  /**
   * One GET request: the raw request path (query included), the last
   * component of the translated path, whether that path is a regular file,
   * whether the path with its last four characters removed translates to a
   * directory, and the guessed MIME type.
   */
  datatype Request = Request(path: string, name: string, isFile: bool, zipSourceIsDir: bool, mime: string)

  datatype Route =
    | Static        // `super().do_GET()` for `/static/...`
    | ServeZip      // an existing `.zip` file
    | BuildZip      // a `.zip` next to a directory: build it with `create_zip`
    | ZipNotFound   // 404 "Directory not found"
    | TextView      // `handle_text_file`
    | Parent        // `super().do_GET()`: plain file or directory listing

  /** `mime_type.startswith('text/') or mime_type in ['application/json', 'application/xml']` */
  predicate TextMime(mime: string)
  {
    StartsWith(mime, "text/") || mime == "application/json" || mime == "application/xml"
  }

  /** server.py also accepts a known extension: `full_path.suffix.lower() in previewable_extensions`. */
  predicate TextLike(mime: string, name: string)
  {
    TextMime(mime) || Lower(PathSuffix(name)) in Rows.PreviewExtensions
  }

  /** server.py's `do_GET`. */
  function Dispatch(r: Request): Route
  {
    if StartsWith(r.path, StaticPrefix) then Static
    else if EndsWith(r.path, ".zip") && r.isFile then ServeZip
    else if EndsWith(r.path, ".zip") then (if r.zipSourceIsDir then BuildZip else ZipNotFound)
    else if TextLike(r.mime, r.name) && r.isFile then TextView
    else Parent
  }

  /** server2.py's `do_GET`: no static prefix and a MIME-only text test. */
  function Dispatch2(r: Request): Route
  {
    if EndsWith(r.path, ".zip") && r.isFile then ServeZip
    else if EndsWith(r.path, ".zip") then (if r.zipSourceIsDir then BuildZip else ZipNotFound)
    else if TextMime(r.mime) && r.isFile then TextView
    else Parent
  }

  /** Every request under `/static/` goes to the parent handler before any other test. */
  lemma StaticPrefixWins(r: Request)
    ensures Dispatch(r) == Static <==> StartsWith(r.path, StaticPrefix)
    ensures Dispatch2(r) != Static
  {
  }

  /**
   * A path ending in `.zip` (outside `/static/`) is only ever served as an
   * archive, built, or refused with 404, and it is served as it is exactly
   * when it names a regular file.
   */
  lemma ZipPathsStayZip(r: Request)
    requires EndsWith(r.path, ".zip") && !StartsWith(r.path, StaticPrefix)
    ensures Dispatch(r) in {ServeZip, BuildZip, ZipNotFound}
    ensures Dispatch(r) == ServeZip <==> r.isFile
    ensures Dispatch(r) == BuildZip <==> !r.isFile && r.zipSourceIsDir
    ensures Dispatch2(r) == Dispatch(r)
  {
  }

  /** The text handler only ever receives an existing regular file that looks like text. */
  lemma TextViewOnlyForTextFiles(r: Request)
    ensures Dispatch(r) == TextView <==>
              !StartsWith(r.path, StaticPrefix) && !EndsWith(r.path, ".zip") && r.isFile && TextLike(r.mime, r.name)
    ensures Dispatch2(r) == TextView <==> !EndsWith(r.path, ".zip") && r.isFile && TextMime(r.mime)
  {
  }

  /**
   * Outside `/static/` the two versions route alike, except that server.py
   * sends a file whose MIME type is not text but whose extension is known to
   * the text handler, where server2.py hands it to the parent handler.
   */
  lemma RouteVersionsAgree(r: Request)
    requires !StartsWith(r.path, StaticPrefix)
    ensures Dispatch(r) != Dispatch2(r) <==>
              Dispatch(r) == TextView && Dispatch2(r) == Parent && !TextMime(r.mime) &&
              Lower(PathSuffix(r.name)) in Rows.PreviewExtensions
  {
  }

  /** A query string after `.zip` defeats the archive test, because the raw path is tested. */
  lemma ZipWithQueryIsNotZip(name: string, isFile: bool, isDir: bool, mime: string)
    ensures Dispatch(Request("/a.zip?x=1", name, isFile, isDir, mime)) !in {ServeZip, BuildZip, ZipNotFound}
  {
    var p := "/a.zip?x=1";
    assert p[|p| - 4..][3] == p[9] == '1';
    assert !EndsWith(p, ".zip");
  }

  // ---------------------------------------------------------------------------
  // `handle_text_file`
  // ---------------------------------------------------------------------------

  /** `self.path.split('?')[0]`: the path up to its first `?`. */
  function BeforeQuery(s: string): (r: string)
    ensures '?' !in r && r <= s
    ensures |r| < |s| ==> s[|r|] == '?'
  {
    if s == [] || s[0] == '?' then [] else [s[0]] + BeforeQuery(s[1..])
  }

  lemma {:induction false} BeforeQueryNoQuery(s: string)
    requires '?' !in s
    ensures BeforeQuery(s) == s
  {
    if s != [] {
      BeforeQueryNoQuery(s[1..]);
    }
  }

  datatype View =
    | RenderMarkdown            // `_serve_file_content_as_html`
    | StreamRaw                 // `_serve_file_content`
    | MarkdownViewer(rawUrl: string)
    | CodeViewer(rawUrl: string)

  predicate IsMarkdown(name: string)
  {
    Lower(PathSuffix(name)) == ".md"
  }

  /**
   * `handle_text_file`: `action` and `render` are the first values of those
   * query parameters (None when absent, as when the path has no `?`).
   * `markdown` is `MARKDOWN_AVAILABLE`. The Markdown viewer receives the raw
   * URL escaped for an attribute; the code viewer receives it as it is.
   */
  function TextDispatch(path: string, name: string, action: Option<string>, render: Option<string>, markdown: bool): (v: View)
    ensures v == RenderMarkdown <==>
              action == Some("get_content") && render == Some("html") && markdown && IsMarkdown(name)
    ensures v == StreamRaw <==>
              action == Some("get_content") && !(render == Some("html") && markdown && IsMarkdown(name))
    ensures v.MarkdownViewer? <==> action != Some("get_content") && markdown && IsMarkdown(name)
    ensures v.MarkdownViewer? ==> Rows.AttributeSafe(v.rawUrl) && Unescape(v.rawUrl) == BeforeQuery(path)
    ensures v.CodeViewer? ==> v.rawUrl == BeforeQuery(path) && '?' !in v.rawUrl
  {
    if action == Some("get_content") then
      if render == Some("html") && markdown && IsMarkdown(name) then RenderMarkdown else StreamRaw
    else if IsMarkdown(name) && markdown then MarkdownViewer(ViewerUrl(path))
    else CodeViewer(CodeViewerUrlAsWritten(path))
  }

  /** The raw URL as the Markdown viewer inserts it, and as both viewers should: `escape(raw_url, quote=True)`. */
  function ViewerUrl(path: string): (r: string)
    ensures Rows.AttributeSafe(r)
    ensures Unescape(r) == BeforeQuery(path)
  {
    UnescapeEscape(BeforeQuery(path), true);
    Escape(BeforeQuery(path), true)
  }

  /** The code viewer frame as written: the raw URL goes into `href="..."` and a JS string unescaped. */
  function CodeViewerUrlAsWritten(path: string): string
  {
    BeforeQuery(path)
  }

  /**
   * `translate_path` drops a `#...` fragment, so `/notes.txt#"` still names
   * `notes.txt`; the code viewer that `handle_text_file` answers with then
   * carries a double quote into its `href` attribute, while the escaped URL
   * cannot.
   */
  lemma CodeViewerUrlBreaksAttribute()
    ensures TextDispatch("/notes.txt#\"", "notes.txt", None, None, true).CodeViewer?
    ensures !Rows.AttributeSafe(TextDispatch("/notes.txt#\"", "notes.txt", None, None, true).rawUrl)
    ensures Rows.AttributeSafe(ViewerUrl("/notes.txt#\""))
  {
    var p := "/notes.txt#\"";
    NotesTxtIsNotMarkdown();
    QuotedNotesUrl();
    assert TextDispatch(p, "notes.txt", None, None, true) == CodeViewer(p);
    assert '"' in p;
  }

  /** The path of the example above has no query, so the raw URL is all of it, quote included. */
  lemma QuotedNotesUrl()
    ensures BeforeQuery("/notes.txt#\"") == "/notes.txt#\""
    ensures "/notes.txt#\""[11] == '"'
  {
    var p := "/notes.txt#\"";
    assert '?' !in p by {
      assert p == "/notes.txt" + "#\"";
      assert '?' !in "/notes.txt" && '?' !in "#\"";
    }
    BeforeQueryNoQuery(p);
  }

  lemma NotesTxtIsNotMarkdown()
    ensures !IsMarkdown("notes.txt")
  {
    var n := "notes.txt";
    assert RFind(n, '.') == 5 by {
      assert n[5] == '.' && n[6] == 't' && n[7] == 'x' && n[8] == 't';
    }
    assert |PathSuffix(n)| == 4;
  }

  /** Where `_serve_file_content_as_html` fails once the path is a file, if it does. */
  datatype RenderFault =
    | Rendered
    | OpenFails      // `open` raises an `OSError`
    | NotUtf8        // `f.read()` raises `UnicodeDecodeError`
    | ConvertFails   // `markdown.markdown` raises
    | WriteFails     // `wfile.write` raises after the 200 has been sent

  /**
   * The status lines of `_serve_file_content_as_html`: 500 without the
   * markdown package, 404 when the path is not a file, 400 when it is not
   * UTF-8, 500 when opening or the conversion fails, 200 otherwise, followed
   * by a 500 status line when writing the page fails.
   */
  function RenderStatuses(markdown: bool, isFile: bool, fault: RenderFault): (statuses: seq<nat>)
    ensures statuses == [200] <==> markdown && isFile && fault == Rendered
    ensures statuses == [200, 500] <==> markdown && isFile && fault == WriteFails
    ensures statuses == [400] <==> markdown && isFile && fault == NotUtf8
    ensures statuses == [404] <==> markdown && !isFile
    ensures statuses == [500] <==> !markdown || (isFile && fault in {OpenFails, ConvertFails})
  {
    if !markdown then [500]
    else if !isFile then [404]
    else
      match fault
      case Rendered => [200]
      case OpenFails => [500]
      case NotUtf8 => [400]
      case ConvertFails => [500]
      case WriteFails => [200, 500]
  }

  /**
   * The dispatcher only renders when the markdown package is present, so the
   * "rendering not available" 500 is never sent from it: a rendered request
   * answered with 500 alone met a file that could not be opened or
   * converted.
   */
  lemma RenderedRequestsHaveMarkdown(path: string, name: string, render: Option<string>, markdown: bool,
                                     isFile: bool, fault: RenderFault)
    requires TextDispatch(path, name, Some("get_content"), render, markdown) == RenderMarkdown
    ensures markdown && render == Some("html") && IsMarkdown(name)
    ensures RenderStatuses(markdown, isFile, fault) == [500] ==> isFile && fault in {OpenFails, ConvertFails}
  {
  }

  /** Where sending a freshly built archive fails, if it does. */
  datatype SendFault =
    | Delivered
    | BeforeResponse   // `stat()` or `open()` raises before `send_response`
    | Disconnected     // `BrokenPipeError` while copying: only logged
    | CopyFails        // any other error while copying: `send_error(500)`

  /**
   * The status lines of the dynamic-archive branch: 500 alone when
   * `create_zip` failed, the archive is not a file, or it cannot be opened;
   * otherwise 200, followed by a 500 status line when the copy fails with
   * anything but a broken pipe.
   */
  function BuildZipStatuses(created: bool, isFile: bool, fault: SendFault): (statuses: seq<nat>)
    ensures statuses == [200] <==> created && isFile && fault in {Delivered, Disconnected}
    ensures statuses == [200, 500] <==> created && isFile && fault == CopyFails
    ensures statuses == [500] <==> !created || !isFile || fault == BeforeResponse
  {
    if created && isFile then
      match fault
      case Delivered => [200]
      case BeforeResponse => [500]
      case Disconnected => [200]
      case CopyFails => [200, 500]
    else [500]
  }

  /**
   * The status lines of the branch that serves an existing archive: a
   * `stat` or `open` failure gives 404 alone; once 200 is sent, any error
   * while copying adds a 404 status line. A broken pipe is an `IOError`,
   * so the first handler catches it and the `except BrokenPipeError`
   * after it is never reached.
   */
  function ServeZipStatuses(fault: SendFault): (statuses: seq<nat>)
    ensures statuses == [200] <==> fault == Delivered
    ensures statuses == [404] <==> fault == BeforeResponse
    ensures statuses == [200, 404] <==> fault in {Disconnected, CopyFails}
  {
    match fault
    case Delivered => [200]
    case BeforeResponse => [404]
    case Disconnected => [200, 404]
    case CopyFails => [200, 404]
  }

  /**
   * A disconnect ends a freshly built archive's response quietly but adds
   * an error line to an existing archive's; the two branches agree only on
   * a delivered archive, and both begin with 200 once the file is open.
   */
  lemma DisconnectQuietOnlyForBuiltZip(fault: SendFault)
    ensures (ServeZipStatuses(fault) == BuildZipStatuses(true, true, fault)) <==> fault == Delivered
    ensures fault != BeforeResponse ==> ServeZipStatuses(fault)[0] == BuildZipStatuses(true, true, fault)[0] == 200
    ensures fault == Disconnected ==> ServeZipStatuses(fault) == BuildZipStatuses(true, true, fault) + [404]
  {
  }
}
