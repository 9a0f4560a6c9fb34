/**
 * The first version of the server (server1.py): unclamped paging, a
 * previous/next-only pagination bar, rows that insert names unescaped, a
 * case-sensitive preview test, an `os.walk` directory size, an archive
 * written straight to its final path and removed after it is sent, and a
 * text handler that sends its status line before opening the file.
 */
module ServerV1 {
  import opened Wrappers
  import opened Strings
  import opened FsTree
  import opened Listing
  import opened Pagination
  import opened Rows
  import opened Routing
  import opened Archive
  import opened Streaming

  // ---------------------------------------------------------------------------
  // `list_directory`
  // ---------------------------------------------------------------------------

  /** `(len(entries) + PAGE_SIZE - 1) // PAGE_SIZE`, with no floor of one page. */
  function TotalPagesV1(n: nat): nat
  {
    (n + PageSize - 1) / PageSize
  }

  /** `entries[(page - 1) * PAGE_SIZE: page * PAGE_SIZE]`, Python slice semantics included. */
  function PageV1(sorted: seq<string>, page: int): seq<string>
  {
    Slice(sorted, (page - 1) * PageSize, page * PageSize)
  }

  /** `list_directory` with the page number used as given. */
  function ListDirectoryV1(names: seq<string>, page: int, search: string): Listing
  {
    var term := Lower(search);
    var sorted := SortByKey(Filter(names, term));
    Listing(PageV1(sorted, page), page, TotalPagesV1(|sorted|), term)
  }

  /**
   * For a page number in range the first version shows the same entries as
   * the later one; it counts no page at all for an empty list.
   */
  lemma ListingVersionsAgree(names: seq<string>, page: int, search: string)
    requires 1 <= page <= ListDirectory(names, page, search).totalPages
    ensures ListDirectoryV1(names, page, search).entries == ListDirectory(names, page, search).entries
    ensures ListDirectoryV1(names, page, search).totalPages == ListDirectory(names, page, search).totalPages ||
            (ListDirectoryV1(names, page, search).totalPages == 0 && ListDirectory(names, page, search).totalPages == 1)
  {
    var sorted := SortByKey(Filter(names, Lower(search)));
    ClampInRange(page, TotalPages(|sorted|));
    assert (page - 1) * PageSize + PageSize == page * PageSize;
  }

  /**
   * What the unclamped page shows: no page at all for an empty list, nothing
   * for page 0 or a page past the last, and otherwise the page's window of
   * the sorted names.
   */
  lemma PagesV1(sorted: seq<string>, page: int)
    ensures TotalPagesV1(|sorted|) == 0 <==> sorted == []
    ensures |sorted| <= TotalPagesV1(|sorted|) * PageSize < |sorted| + PageSize
    ensures page == 0 || page > TotalPagesV1(|sorted|) ==> PageV1(sorted, page) == []
    ensures 1 <= page <= TotalPagesV1(|sorted|) ==>
              PageV1(sorted, page) == sorted[(page - 1) * PageSize..Min(page * PageSize, |sorted|)]
  {
    var n, t := |sorted|, TotalPagesV1(|sorted|);
    if page > t {
      assert (page - 1) * PageSize >= t * PageSize;
    }
    if 1 <= page {
      SliceNonNegative(sorted, (page - 1) * PageSize, page * PageSize);
      if page <= t {
        assert (page - 1) * PageSize <= (t - 1) * PageSize < n;
      }
    }
  }

  /**
   * A negative page number is not rejected: with 50 names, `page=-1` slices
   * `entries[-40:-20]` and shows the 11th to 30th names, labelled page -1.
   */
  lemma NegativePageShowsMiddle(sorted: seq<string>)
    requires |sorted| == 50
    ensures PageV1(sorted, -1) == sorted[10..30]
  {
  }

  /**
   * `page > 1` gives a link to the previous page, `page < total_pages` one to
   * the next page, the previous one first; there is nothing else.
   */
  function ControlsV1(page: int, total: nat): (cs: seq<Control>)
    ensures PrevLink(page - 1) in cs <==> page > 1
    ensures NextLink(page + 1) in cs <==> page < total
    ensures forall c :: c in cs ==> c == PrevLink(page - 1) || c == NextLink(page + 1)
    ensures |cs| <= 2
    ensures forall i, j :: 0 <= i < j < |cs| ==> cs[i].PrevLink? && cs[j].NextLink?
  {
    (if page > 1 then [PrevLink(page - 1)] else []) + (if page < total then [NextLink(page + 1)] else [])
  }

  // ---------------------------------------------------------------------------
  // Rows
  // ---------------------------------------------------------------------------

  /** server1.py's list: no `.cfg`, `.h` or `.sql`, but `.zsh`. */
  const PreviewExtensionsV1: seq<string> := [
    ".txt", ".csv", ".log", ".md", ".json", ".xml",
    ".yaml", ".yml", ".ini",
    ".java", ".cpp", ".c", ".cs", ".js",
    ".html", ".css", ".py", ".rb", ".php",
    ".go", ".swift", ".ts",
    ".bash", ".sh", ".zsh"
  ]

  function AnyEndsWith(name: string, exts: seq<string>): (b: bool)
    ensures b <==> exists i :: 0 <= i < |exts| && EndsWith(name, exts[i])
  {
    if exts == [] then false
    else EndsWith(name, exts[0]) || AnyEndsWith(name, exts[1..])
  }

  /** `any(displayname.endswith(ext) for ext in previewable_extensions)`: case-sensitive. */
  predicate PreviewableV1(name: string)
  {
    AnyEndsWith(name, PreviewExtensionsV1)
  }

  /** `linkname.replace(" ", "%20")` */
  function EncodeSpaces(s: string): (r: string)
    ensures ' ' !in r
    ensures |r| >= |s|
    ensures ' ' !in s ==> r == s
  {
    if s == [] then []
    else (if s[0] == ' ' then "%20" else [s[0]]) + EncodeSpaces(s[1..])
  }

  /** Reading `%20` back as a space. */
  function DecodeSpaces(s: string): string
  {
    if s == [] then []
    else if |s| >= 3 && s[..3] == "%20" then " " + DecodeSpaces(s[3..])
    else [s[0]] + DecodeSpaces(s[1..])
  }

  /** A link made by `EncodeSpaces` decodes back to the name, provided the name holds no `%20` of its own. */
  lemma {:induction false} SpacesRoundTrip(s: string)
    requires !Contains(s, "%20")
    ensures DecodeSpaces(EncodeSpaces(s)) == s
    decreases |s|
  {
    if s != [] {
      SpacesRoundTrip(s[1..]);
      var rest := EncodeSpaces(s[1..]);
      assert EncodeSpaces(s) == (if s[0] == ' ' then "%20" else [s[0]]) + rest;
      if s[0] == ' ' {
        DecodeEscapedSpace(rest);
      } else {
        if s[0] == '%' && |rest| >= 2 && rest[0] == '2' && rest[1] == '0' {
          // `s` would start with `%20`
          NoSpaceFirstChars(s[1..]);
          assert false;
        }
        DecodePlain(s[0], rest);
      }
    }
  }

  lemma DecodeEscapedSpace(rest: string)
    ensures DecodeSpaces("%20" + rest) == " " + DecodeSpaces(rest)
  {
    assert ("%20" + rest)[..3] == "%20";
    assert ("%20" + rest)[3..] == rest;
  }

  lemma DecodePlain(c: char, rest: string)
    requires !(c == '%' && |rest| >= 2 && rest[0] == '2' && rest[1] == '0')
    ensures DecodeSpaces([c] + rest) == [c] + DecodeSpaces(rest)
  {
    var t := [c] + rest;
    assert t[1..] == rest;
    if |t| >= 3 {
      var head := t[..3];
      assert head[0] == c && head[1] == rest[0] && head[2] == rest[1];
      var pct := "%20";
      assert pct[0] == '%' && pct[1] == '2' && pct[2] == '0';
      assert head != pct;
    }
  }

  /** The first two characters of the encoding come from the name when they are not part of a `%20`. */
  lemma NoSpaceFirstChars(s: string)
    requires |EncodeSpaces(s)| >= 2 && EncodeSpaces(s)[0] == '2' && EncodeSpaces(s)[1] == '0'
    ensures |s| >= 2 && s[..2] == "20"
  {
    assert s != [] && s[0] != ' ';
    assert EncodeSpaces(s) == [s[0]] + EncodeSpaces(s[1..]);
    assert s[1..] != [] && s[1] != ' ';
  }

  /** `generate_directory_entry`: the name goes into the markup as it is. */
  function DirectoryEntryV1(name: string, size: string, date: string): (r: Row)
    ensures r.text == r.href && |r.text| == |name| + 1 && r.text[..|name|] == name && r.text[|name|..] == "/"
    ensures |r.actions| == 1 && r.actions[0].ZipDownload? && |r.actions[0].href| == |name| + 4 &&
            r.actions[0].href[..|name|] == name && r.actions[0].href[|name|..] == ".zip"
  {
    Row(name + "/", name + "/", size, date, [ZipDownload(name + ".zip")])
  }

  /** `generate_file_entry`: spaces in the link become `%20`; the name is shown unescaped. */
  function FileEntryV1(name: string, size: string, date: string): (r: Row)
    ensures r.text == name && ' ' !in r.href
    ensures forall a :: a in r.actions ==> a.href == r.href
    ensures Preview(r.href) in r.actions <==> PreviewableV1(name)
  {
    var link := EncodeSpaces(name);
    Row(link, name, size, date, [Download(link)] + (if PreviewableV1(name) then [Preview(link)] else []))
  }

  /**
   * A name containing markup reaches the page raw in the first version, while
   * the escaped rows of the later version cannot carry it.
   */
  lemma UnescapedRowsCarryMarkup(size: string, date: string)
    ensures !TextSafe(DirectoryEntryV1("<b>", size, date).text)
    ensures !TextSafe(FileEntryV1("<b>", size, date).text)
    ensures TextSafe(DirectoryEntry("<b>", size, date).text)
    ensures TextSafe(FileEntry("<b>", size, date).text)
  {
    assert DirectoryEntryV1("<b>", size, date).text[0] == '<';
    assert FileEntryV1("<b>", size, date).text[0] == '<';
  }

  /** Every extension of the first version's list ends in a lower-case letter. */
  lemma ExtensionsEndLower()
    ensures forall i :: 0 <= i < |PreviewExtensionsV1| ==>
              |PreviewExtensionsV1[i]| > 0 && 'a' <= PreviewExtensionsV1[i][|PreviewExtensionsV1[i]| - 1] <= 'z'
  {
  }

  /** The first version's preview test is case-sensitive: a name ending in an upper-case letter never gets a preview link. */
  lemma UpperCaseEndingNeverPreviewsV1(name: string)
    requires name != [] && IsUpper(name[|name| - 1])
    ensures !PreviewableV1(name)
  {
    ExtensionsEndLower();
    forall i | 0 <= i < |PreviewExtensionsV1| ensures !EndsWith(name, PreviewExtensionsV1[i]) {
    }
  }

  /** `A.MD` previews in the later version but not in the first. */
  lemma UpperCaseExtensionV1()
    ensures !PreviewableV1("A.MD")
    ensures Previewable("A.MD")
  {
    UpperCaseExtensionPreviews();
    UpperCaseEndingNeverPreviewsV1("A.MD");
  }

  /** `.sh`, a hidden file with no extension, previews in the first version, which tests the ending. */
  lemma DotFilePreviewsV1()
    ensures PreviewableV1(".sh")
    ensures !Previewable(".sh")
  {
    DotFileDoesNotPreview();
    assert PreviewExtensionsV1[23] == ".sh";
    assert EndsWith(".sh", PreviewExtensionsV1[23]);
  }

  // ---------------------------------------------------------------------------
  // `do_GET`
  // ---------------------------------------------------------------------------

  /** server1.py's `do_GET`: `.txt` and `.csv` paths go to the text handler without a file test. */
  function DispatchV1(r: Request): Route
  {
    if EndsWith(r.path, ".zip") && r.isFile then ServeZip
    else if EndsWith(r.path, ".zip") then (if r.zipSourceIsDir then BuildZip else ZipNotFound)
    else if EndsWith(r.path, ".txt") || EndsWith(r.path, ".csv") then TextView
    else Parent
  }

  /**
   * Where each request goes in the first version; on paths ending in `.zip`
   * it agrees with the later versions.
   */
  lemma DispatchV1Routes(r: Request)
    ensures DispatchV1(r) == ServeZip <==> EndsWith(r.path, ".zip") && r.isFile
    ensures DispatchV1(r) == BuildZip <==> EndsWith(r.path, ".zip") && !r.isFile && r.zipSourceIsDir
    ensures DispatchV1(r) == TextView <==>
              !EndsWith(r.path, ".zip") && (EndsWith(r.path, ".txt") || EndsWith(r.path, ".csv"))
    ensures DispatchV1(r) != Static
    ensures EndsWith(r.path, ".zip") ==> DispatchV1(r) == Dispatch2(r)
  {
  }

  /** A missing `.txt` file still reaches the text handler in the first version, but not in the later one. */
  lemma MissingTextReachesHandlerV1(name: string, mime: string)
    ensures DispatchV1(Request("/missing.txt", name, false, false, mime)) == TextView
    ensures Dispatch(Request("/missing.txt", name, false, false, mime)) == Parent
  {
    var p := "/missing.txt";
    assert p[|p| - 4..] == ".txt";
    assert !StartsWith(p, StaticPrefix) by {
      assert p[1] == 'm';
    }
  }

  /**
   * `handle_text_file`: the 200 status line is sent before the file is
   * opened; the file is read as UTF-8 text in chunks of 8192 characters.
   * An `IOError` (the file is missing, or reading fails at read `failAt`)
   * then adds a 404 status line; when the failure at `failAt` is a decoding
   * error (`decodeError`) it only ends the body.
   */
  method HandleTextV1(exists_: bool, text: string, failAt: Option<nat>, decodeError: bool)
    returns (r: Response<char>)
    ensures !exists_ ==> r == Response([200, 404], [])
    ensures |r.statuses| > 0 && r.statuses[0] == 200 && Flatten(r.body) <= text
    ensures exists_ && failAt == None ==> r == Response([200], Chunks(text, 8192))
    ensures exists_ && failAt.Some? && failAt.value <= |Chunks(text, 8192)| ==>
              r.body == Chunks(text, 8192)[..failAt.value] &&
              r.statuses == (if decodeError then [200] else [200, 404])
    ensures exists_ && failAt.Some? && failAt.value > |Chunks(text, 8192)| ==>
              r == Response([200], Chunks(text, 8192))
  {
    if !exists_ {
      return Response([200, 404], []);
    }
    var written, failed := StreamChunks(text, 8192, failAt);
    ChunksFlatten(text, 8192);
    FlattenPrefix(Chunks(text, 8192), |written|);
    assert written == Chunks(text, 8192)[..|written|];
    r := Response(if failed && !decodeError then [200, 404] else [200], written);
  }

  // ---------------------------------------------------------------------------
  // Directory size and archives
  // ---------------------------------------------------------------------------

  lemma {:induction false} FilesInAreFiles(ts: seq<Tree>)
    ensures forall f :: f in FilesIn(ts) ==> f.File?
  {
    if ts != [] {
      FilesInAreFiles(ts[1..]);
    }
  }

  /** `get_directory_size`: the nested `os.walk` loops add up every regular file under the directory. */
  method DirectorySizeV1(t: Tree) returns (total: nat)
    ensures t.Dir? ==> total == TreeSize(t)
    ensures t.File? ==> total == 0
  {
    var steps := Walk(t);
    total := 0;
    var i := 0;
    while i < |steps|
      invariant 0 <= i <= |steps|
      invariant total == WalkBytes(steps[..i])
    {
      assert steps[..i + 1] == steps[..i] + [steps[i]];
      WalkBytesAppend(steps[..i], [steps[i]]);
      if steps[i].Dir? {
        total := AddFileSizes(total, steps[i].children);
      }
      i := i + 1;
    }
    assert steps[..i] == steps;
    if t.Dir? {
      WalkSize(t);
    }
  }

  /** The inner loop `for f in filenames: total_size += os.path.getsize(fp)` over one directory's files. */
  method AddFileSizes(start: nat, children: seq<Tree>) returns (total: nat)
    ensures total == start + FileBytes(FilesIn(children))
  {
    var files := FilesIn(children);
    FilesInAreFiles(children);
    total := start;
    var j := 0;
    while j < |files|
      invariant 0 <= j <= |files|
      invariant total == start + FileBytes(files[..j])
    {
      assert files[j] in files;
      FileBytesStep(files, j);
      total := total + files[j].size;
      j := j + 1;
    }
    assert files[..j] == files;
  }

  /** One more file counted. */
  lemma FileBytesStep(files: seq<Tree>, j: nat)
    requires j < |files| && files[j].File?
    ensures FileBytes(files[..j + 1]) == FileBytes(files[..j]) + files[j].size
  {
    assert files[..j + 1] == files[..j] + [files[j]];
    FileBytesAppend(files[..j], [files[j]]);
  }

  function ParentDir(dir: Path): Path
  {
    if dir == [] then [] else dir[..|dir| - 1]
  }

  /**
   * `os.path.dirname(directory)`. `slash` says whether the request's part
   * before `.zip` ends in `/` (`GET /sub/.zip`): `translate_path` keeps that
   * slash, and `dirname` of `<root>/sub/` is the directory itself; otherwise
   * (`GET /sub.zip`) it is the directory's parent.
   */
  function ArchiveBaseV1(dir: Path, slash: bool): Path
  {
    if slash then dir else ParentDir(dir)
  }

  /** The archive server1.py's `create_zip` writes: every file, named relative to `dirname(directory)`. */
  function ArchiveV1(nodes: map<Path, Node>, dir: Path, slash: bool): map<Path, Path>
  {
    Entries(FilesUnder(nodes, dir), ArchiveBaseV1(dir, slash))
  }

  /**
   * Without a trailing slash, entry names start with the directory's last
   * component; with one, they are relative to the directory itself, as
   * server.py names them.
   */
  lemma ArchiveV1Names(nodes: map<Path, Node>, dir: Path)
    requires dir != []
    ensures forall a :: a in ArchiveV1(nodes, dir, false) ==> |a| >= 2 && a[0] == dir[|dir| - 1]
    ensures ArchiveV1(nodes, dir, true) == ArchiveOf(nodes, dir)
  {
    var m := ArchiveV1(nodes, dir, false);
    forall a | a in m ensures |a| >= 2 && a[0] == dir[|dir| - 1] {
      var p :| p in FilesUnder(nodes, dir) && Under(ParentDir(dir), p) && p[|dir| - 1..] == a;
      assert p[|dir| - 1] == dir[|dir| - 1];
    }
  }

  /**
   * `GET /sub/.zip`: the target `sub/.zip` lies inside `sub` and exists as
   * soon as `ZipFile` opens it, so `os.walk` lists it; the request ends its
   * directory part with `/`, so the archive gets an entry `.zip` for its
   * own file.
   */
  lemma TargetInsideDirectoryV1(nodes: map<Path, Node>, dir: Path)
    ensures [".zip"] in ArchiveV1(WithEmptyArchive(nodes, dir + [".zip"]), dir, true)
  {
    var target := dir + [".zip"];
    assert target[..|dir|] == dir && target[|dir|..] == [".zip"];
    ScanInside(nodes, dir, target);
  }

  /** Leaving out a file that is under the directory leaves out its entry. */
  lemma EntriesStrict(done: set<Path>, files: set<Path>, base: Path, p: Path)
    requires done <= files && p in files && p !in done && Under(base, p)
    ensures Entries(done, base).Keys < Entries(files, base).Keys
  {
    RelativeInjective(base);
    assert p[|base|..] in Entries(files, base);
  }

  /**
   * What a failed build leaves behind: some of the archive's entries, each
   * naming the same source file as in the complete archive, and not all of
   * them.
   */
  predicate PartialArchive(m: map<Path, Path>, full: map<Path, Path>)
  {
    m.Keys < full.Keys && forall a :: a in m ==> m[a] == full[a]
  }

  /** Writing fewer files gives a sub-map of the entries. */
  lemma EntriesSubMap(done: set<Path>, files: set<Path>, base: Path)
    requires done <= files
    ensures forall a :: a in Entries(done, base) ==>
              a in Entries(files, base) && Entries(done, base)[a] == Entries(files, base)[a]
  {
    forall a | a in Entries(done, base)
      ensures a in Entries(files, base) && Entries(done, base)[a] == Entries(files, base)[a]
    {
      var q :| q in done && Under(base, q) && q[|base|..] == a;
      assert q in files;
    }
  }

  /** Files under a directory are also under its parent, so under the base of either kind of request. */
  lemma UnderBase(nodes: map<Path, Node>, dir: Path, slash: bool)
    ensures forall p :: p in FilesUnder(nodes, dir) ==> Under(ArchiveBaseV1(dir, slash), p)
  {
    forall p | p in FilesUnder(nodes, dir) ensures Under(ArchiveBaseV1(dir, slash), p) {
      if dir != [] && !slash {
        assert p[..|dir| - 1] == p[..|dir|][..|dir| - 1];
      }
    }
  }

  /**
   * The loop of the `with ZipFile(zip_name, 'w')` block: the empty archive
   * at `target` receives one file after another. `failAt`, when given, is the
   * number of files written before `zipf.write` raises; the partial archive
   * stays where it is.
   */
  method FillArchiveV1(fs: FileSystem, files: set<Path>, base: Path, target: Path, failAt: Option<nat>)
    returns (raised: bool, members: map<Path, Path>)
    requires forall p :: p in files ==> Under(base, p)
    requires target in fs.nodes && fs.nodes[target] == FileNode(Zip(map[]))
    modifies fs
    ensures fs.nodes == old(fs.nodes)[target := FileNode(Zip(members))]
    ensures raised <==> failAt.Some? && failAt.value < |files|
    ensures !raised ==> members == Entries(files, base)
    ensures raised ==> PartialArchive(members, Entries(files, base))
  {
    ghost var before := fs.nodes;
    members := map[];
    var todo := files;
    var count := 0;
    while todo != {}
      invariant todo <= files && count + |todo| == |files|
      invariant members == Entries(files - todo, base)
      invariant fs.nodes == before[target := FileNode(Zip(members))]
      invariant failAt.Some? ==> count <= failAt.value
      decreases |todo|
    {
      var p :| p in todo;
      if failAt == Some(count) {
        FillStops(files, todo, base, p);
        return true, members;
      }
      FillStep(files, todo, base, p);
      members := members[p[|base|..] := p];
      UpdateTwice(before, target, fs.nodes[target], FileNode(Zip(members)));
      fs.Put(target, FileNode(Zip(members)));
      todo, count := todo - {p}, count + 1;
    }
    assert files - todo == files;
    raised := false;
  }

  /** Stopping with a file still to write leaves out its entry. */
  lemma FillStops(files: set<Path>, todo: set<Path>, base: Path, p: Path)
    requires todo <= files && p in todo && Under(base, p)
    ensures PartialArchive(Entries(files - todo, base), Entries(files, base))
  {
    EntriesStrict(files - todo, files, base, p);
    EntriesSubMap(files - todo, files, base);
  }

  /** One more file written: its entry joins the others. */
  lemma FillStep(files: set<Path>, todo: set<Path>, base: Path, p: Path)
    requires todo <= files && p in todo && Under(base, p)
    ensures Entries(files - (todo - {p}), base) == Entries(files - todo, base)[p[|base|..] := p]
  {
    EntriesAdd(files - todo, base, p);
    assert (files - todo) + {p} == files - (todo - {p});
  }

  /**
   * server1.py's `create_zip`: when the target does not exist, the archive
   * is created at its final path and `os.walk` then collects the files, the
   * new archive among them when the target lies inside the directory.
   */
  method CreateZipV1(fs: FileSystem, dir: Path, slash: bool, target: Path, failAt: Option<nat>) returns (raised: bool)
    modifies fs
    ensures target in old(fs.nodes) ==> !raised && fs.nodes == old(fs.nodes)
    ensures target !in old(fs.nodes) && !raised ==>
              fs.nodes == old(fs.nodes)[target := FileNode(Zip(ArchiveV1(WithEmptyArchive(old(fs.nodes), target), dir, slash)))]
    ensures target !in old(fs.nodes) ==>
              (raised <==> failAt.Some? && failAt.value < |FilesUnder(WithEmptyArchive(old(fs.nodes), target), dir)|)
    ensures raised ==>
              target in fs.nodes && fs.nodes == old(fs.nodes)[target := fs.nodes[target]] &&
              fs.nodes[target].FileNode? && fs.nodes[target].content.Zip? &&
              PartialArchive(fs.nodes[target].content.members, ArchiveV1(WithEmptyArchive(old(fs.nodes), target), dir, slash))
  {
    if target in fs.nodes {
      return false;
    }
    fs.Put(target, FileNode(Zip(map[])));
    var files := FilesUnder(fs.nodes, dir);
    UnderBase(fs.nodes, dir, slash);
    var members;
    raised, members := FillArchiveV1(fs, files, ArchiveBaseV1(dir, slash), target, failAt);
    UpdateTwice(old(fs.nodes), target, FileNode(Zip(map[])), fs.nodes[target]);
  }

  /**
   * The dynamic branch of server1.py's `do_GET`: build the archive if it is
   * not there yet, send it, and remove it in the `finally` clause. An
   * exception from `create_zip`, which sits outside the `try`, skips the
   * removal. `sent` is the archive content sent, if any.
   */
  method BuildAndSendV1(fs: FileSystem, dir: Path, slash: bool, target: Path, failAt: Option<nat>)
    returns (sent: Option<Content>)
    modifies fs
    ensures target !in old(fs.nodes) ==>
              (sent == None <==> failAt.Some? && failAt.value < |FilesUnder(WithEmptyArchive(old(fs.nodes), target), dir)|)
    ensures target !in old(fs.nodes) && sent.Some? ==>
              sent == Some(Zip(ArchiveV1(WithEmptyArchive(old(fs.nodes), target), dir, slash))) && fs.nodes == old(fs.nodes)
    ensures target !in old(fs.nodes) && sent == None ==>
              target in fs.nodes && fs.nodes == old(fs.nodes)[target := fs.nodes[target]] &&
              fs.nodes[target].FileNode? && fs.nodes[target].content.Zip? &&
              PartialArchive(fs.nodes[target].content.members, ArchiveV1(WithEmptyArchive(old(fs.nodes), target), dir, slash))
    ensures target in old(fs.nodes) && old(fs.nodes)[target].FileNode? ==>
              sent == Some(old(fs.nodes)[target].content) && fs.nodes == old(fs.nodes) - {target}
    ensures target in old(fs.nodes) && old(fs.nodes)[target].DirNode? ==> sent == None && fs.nodes == old(fs.nodes)
  {
    if target !in fs.nodes {
      var raised := CreateZipV1(fs, dir, slash, target, failAt);
      if raised {
        return None;
      }
    }
    if fs.nodes[target].DirNode? {
      // `open` raises, and so does `os.remove` in the `finally` clause
      return None;
    }
    sent := Some(fs.nodes[target].content);
    fs.Unlink(target);
  }

  /**
   * A failed build leaves a partial archive at the target; the next request
   * for the same `.zip` finds a regular file there, so the first branch
   * serves that partial archive as it is, and it is never rebuilt.
   */
  method RetryAfterFailedBuildV1(fs: FileSystem, dir: Path, slash: bool, target: Path, k: nat, path: string, name: string, mime: string)
    returns (first: Option<Content>, second: Route, served: Content)
    requires target !in fs.nodes && k < |FilesUnder(WithEmptyArchive(fs.nodes, target), dir)|
    requires EndsWith(path, ".zip")
    modifies fs
    ensures first == None
    ensures second == ServeZip
    ensures served.Zip? && PartialArchive(served.members, ArchiveV1(WithEmptyArchive(old(fs.nodes), target), dir, slash))
    ensures fs.nodes == old(fs.nodes)[target := FileNode(served)]
  {
    first := BuildAndSendV1(fs, dir, slash, target, Some(k));
    second := DispatchV1(Request(path, name, target in fs.nodes && fs.nodes[target].FileNode?, true, mime));
    served := fs.nodes[target].content;
  }
}
