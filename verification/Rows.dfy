/**
 * The listing rows of `generate_directory_entry` and `generate_file_entry`
 * (server.py; the same code is in server2.py) and the echoed search box.
 * A row is abstracted to its insertion slots: the link target, the visible
 * name, the size and date texts, and the action links. Size and date texts
 * are produced elsewhere (floating-point formatting and clock reading) and
 * are passed in.
 */
module Rows {
  import opened Strings
  import opened Html

  datatype Action =
    | ZipDownload(href: string)
    | Download(href: string)
    | Preview(href: string)

  datatype Row = Row(href: string, text: string, size: string, date: string, actions: seq<Action>)

  /** Safe inside a double-quoted attribute: no raw angle bracket and no raw quote. */
  predicate AttributeSafe(s: string)
  {
    '<' !in s && '>' !in s && '"' !in s && '\'' !in s
  }

  /** Safe as element text: no raw angle bracket. */
  predicate TextSafe(s: string)
  {
    '<' !in s && '>' !in s
  }

  /** The extensions that get a preview link. */
  const PreviewExtensions: set<string> := {
    ".txt", ".csv", ".log", ".md", ".json", ".xml",
    ".yaml", ".yml", ".ini", ".cfg",
    ".py", ".js", ".html", ".css", ".java", ".c", ".cpp", ".h", ".cs",
    ".rb", ".php", ".go", ".swift", ".ts", ".sh", ".bash", ".sql"
  }

  /** `os.path.splitext(displayname.lower())[1] in previewable_extensions` */
  predicate Previewable(name: string)
  {
    SplitExt(Lower(name)).1 in PreviewExtensions
  }

  function DirectoryEntry(name: string, size: string, date: string): (r: Row)
    ensures AttributeSafe(r.href) && TextSafe(r.text)
    ensures |r.actions| == 1 && r.actions[0].ZipDownload? && AttributeSafe(r.actions[0].href)
    ensures Unescape(r.text) == name + "/" && Unescape(r.href) == name + "/"
    ensures |r.href| > 0 && r.href[|r.href| - 1] == '/'
    ensures r.actions[0].href == r.href[..|r.href| - 1] + ".zip"
  {
    var link := Escape(name, true);
    var shown := Escape(name, false);
    UnescapeSlash(shown, name, false);
    UnescapeSlash(link, name, true);
    assert (link + "/")[..|link|] == link;
    SafeAppend(link, "/");
    SafeAppend(link, ".zip");
    Row(link + "/", shown + "/", size, date, [ZipDownload(link + ".zip")])
  }

  function FileEntry(name: string, size: string, date: string): (r: Row)
    ensures AttributeSafe(r.href) && TextSafe(r.text)
    ensures Unescape(r.text) == name && Unescape(r.href) == name
    ensures forall a :: a in r.actions ==> a.href == r.href
    ensures |r.actions| >= 1 && r.actions[0].Download?
    ensures Preview(r.href) in r.actions <==> Previewable(name)
  {
    var link := Escape(name, true);
    var shown := Escape(name, false);
    UnescapeEscape(name, true);
    UnescapeEscape(name, false);
    FileRow(link, shown, size, date, Previewable(name))
  }

  /** The markup of a file row: the download link, then the preview link when there is one. */
  function FileRow(link: string, shown: string, size: string, date: string, preview: bool): (r: Row)
    ensures r.href == link && r.text == shown
    ensures forall a :: a in r.actions ==> a.href == link
    ensures |r.actions| >= 1 && r.actions[0].Download?
    ensures Preview(link) in r.actions <==> preview
  {
    Row(link, shown, size, date, [Download(link)] + (if preview then [Preview(link)] else []))
  }

  lemma SafeAppend(a: string, b: string)
    requires AttributeSafe(a) && '<' !in b && '>' !in b && '"' !in b && '\'' !in b
    ensures AttributeSafe(a + b) && TextSafe(a + b)
  {
  }

  lemma UnescapeSlash(escaped: string, name: string, quote: bool)
    requires escaped == Escape(name, quote)
    ensures Unescape(escaped + "/") == name + "/"
  {
    EscapeAppend(name, "/", quote);
    assert Escape("/", quote) == "/";
    UnescapeEscape(name + "/", quote);
  }

  /** The search box echoes the term escaped with `quote=True`, so it cannot close the attribute. */
  function SearchField(term: string): (r: string)
    ensures AttributeSafe(r)
    ensures Unescape(r) == term
  {
    UnescapeEscape(term, true);
    Escape(term, true)
  }

  /** The preview test ignores case, because the name is lower-cased before splitting. */
  lemma PreviewIgnoresCase(name: string)
    ensures Previewable(name) <==> Previewable(Lower(name))
  {
    LowerIsLower(name);
  }

  /** An upper-case extension previews, because the name is lower-cased first. */
  lemma UpperCaseExtensionPreviews()
    ensures Previewable("A.MD")
  {
    assert Lower("A.MD") == "a.md";
    assert SplitExt("a.md") == ("a", ".md") by {
      assert RFind("a.md", '.') == 1;
      assert RFind("a.md", '/') == -1;
      assert HasNonDot("a.md", 0, 1);
    }
  }

  /** A name made of a dot and an extension is a hidden file with no extension, so it gets no preview. */
  lemma DotFileDoesNotPreview()
    ensures !Previewable(".sh")
  {
    assert Lower(".sh") == ".sh";
    assert SplitExt(".sh").1 == "" by {
      assert RFind(".sh", '.') == 0;
      assert RFind(".sh", '/') == -1;
    }
  }
}
