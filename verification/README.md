# Directory-sharing HTTP server, modelled in Dafny

The system shares one directory over HTTP. A directory request returns an
HTML listing. The listing is searched, sorted and paged twenty entries at a
time. It has a pagination bar, a size column for sub-directories (a cached
recursive sum) and per-row download, preview and "download as ZIP" links. A
`.zip` request either serves an existing archive or builds one from the
directory of the same name. A text-like file opens in a viewer frame, which
then fetches the content as a chunked raw stream or, for Markdown, as rendered
HTML. There are three generations of the server:

- `server.py` is the current one.
- `server2.py` is the same design with MIME-only routing and an encoding
  fallback for text.
- `server1.py` is the first version. It does not clamp pages, escape names or
  write archives atomically.

A separate tool, `print_dir_info/print_file_tree.py`, writes a Markdown report
of a directory tree: its settings, an indented outline and the contents of
every kept file.

Modules:

- `Strings`: lower-casing, prefix and suffix tests, Python slicing, `os.path.splitext` and `Path.suffix`.
- `Html`: `html.escape` and its inverse.
- `Listing`: search, sort, page count, clamp and page window.
- `Pagination`: the control bar.
- `Rows`: the listing rows and the echoed search box.
- `FsTree`: directory trees and their sizes.
- `SizeCache`: the LRU cache of directory sizes, as a class.
- `Archive`: `create_zip` over a file-system class.
- `Routing`: `do_GET` and `handle_text_file` dispatch.
- `Streaming`: chunked streaming and the encoding fallback.
- `ServerV1`: everything in which `server1.py` differs.
- `TreeReport`: the report generator.

`server.py` and `server2.py` share their listing, pagination, row and size-cache
code line for line. One member models both, and the table cites `server.py`.

In several places the code does not do what it evidently intends. The model
follows the code:

- In `server1.py`, pages are not clamped, names are not escaped, archives are
  written in place, and a missing `.txt` gets a 200 and then a 404 (see
  "## Findings").
- The Markdown renderer's "not available" error is never reached from
  dispatch. Without the `markdown` package, a `render=html` request streams the
  raw file (`Routing.RenderedRequestsHaveMarkdown`). A write failure after
  the rendered page's 200 adds a 500 status line (`Routing.RenderStatuses`).
- When an existing archive is served, `except IOError` comes before
  `except BrokenPipeError`. A broken pipe is an `IOError`, so the second
  handler is never reached and a disconnect adds a 404 status line after the
  200 (`Routing.ServeZipStatuses`, `Routing.DisconnectQuietOnlyForBuiltZip`).
- A `.zip` request for a directory's own path, such as `GET /sub/.zip`, puts
  the archive inside the directory it archives. The scan runs after the
  archive file is created, so the archive lists itself
  (`Archive.TargetInsideDirectory`, `ServerV1.TargetInsideDirectoryV1`).
- The code viewer inserts the raw URL unescaped; only the Markdown viewer
  escapes it (`Routing.TextDispatch`, see "## Findings").
- A client disconnect while streaming is not handled quietly.
  `BrokenPipeError` is a subclass of `IOError`, so the earlier `except IOError`
  catches it and writes a 404 status line after the 200
  (`Streaming.ServeFileContent`).

## Model

| member | source | states |
|---|---|---|
| Strings.Lower | server.py:399 | lower-casing keeps the length and maps each character through the ASCII case map |
| Strings.LowerIsLower | server.py:399 | a lowered string has no upper-case letter, and lowering is idempotent |
| Strings.ContainsIff | server.py:402 | the `in` substring test holds iff the term occurs at some index |
| Strings.LessTotal | server.py:404 | the string order used by `sort` is total |
| Strings.LessTransitive | server.py:404 | the string order used by `sort` is transitive |
| Strings.LessAsymmetric | server.py:404 | the string order used by `sort` is asymmetric |
| Strings.SliceNonNegative | server.py:407-410 | a Python slice with non-negative bounds is the clamped window and no longer than its bounds |
| Strings.RFind | server.py:510-512 | the last index of the character, or -1 when it is absent |
| Strings.SplitExt | server.py:510-512 | `splitext` splits the name into root and extension; the extension is empty or one dot with no further dot or slash |
| Strings.PathSuffix | server.py:762-766 | `Path.suffix` is empty or a dotted ending, shorter than the name, with no further dot |
| Strings.SuffixDiffersFromSplitExt | server.py:510-512 | for `notes.`, `splitext` gives `.` while `Path.suffix` gives the empty string |
| Html.Escape | server.py:501-502 | escaped text has no `<` or `>`, and with quoting no quote characters either |
| Html.EscapeIsReplaceChain | server.py:501-502 | the per-character escape equals `html.escape`'s chain of five replacements, `&` first |
| Html.EscapeAppend | server.py:501-502 | escaping distributes over concatenation |
| Html.UnescapeEscape | server.py:501-502 | unescaping recovers the original text: escaping loses nothing |
| Html.EscapeInjective | server.py:501-502 | two texts with the same escape are equal |
| Listing.MatchingKeepsExactly | server.py:401-402 | the search keeps exactly the names whose lower-case form contains the term |
| Listing.EmptyTermKeepsAll | server.py:401 | an empty search term keeps every name in order |
| Listing.FilterKeepsExactly | server.py:401-402 | the filter keeps exactly the matching names |
| Listing.SortByKeySorts | server.py:404 | sorting by the lower-case key gives a sorted permutation of the names |
| Listing.InsertSorted | server.py:404 | inserting into a sorted list keeps it sorted and adds exactly that element |
| Listing.InsertStable | server.py:404 | an inserted name goes before the names with its own key and after nothing that shares it |
| Listing.SortByKeyStable | server.py:404 | the sort is stable: for every lower-case key, the names with that key come out in their input order |
| Listing.TotalPagesIsCeiling | server.py:406 | the page count is at least one, and is the ceiling of the count over twenty |
| Listing.ClampInRange | server.py:407 | the clamped page lies in `[1, total]`, keeps an in-range page, and maps low pages to 1 and high pages to the last |
| Listing.PageWindow | server.py:408-410 | the page shows entries `(p-1)*20` to `p*20` of the sorted list, clamped, and at most twenty of them |
| Listing.PageSizes | server.py:405-410 | every page but the last is full, and no page of a non-empty list is empty |
| Listing.PagesPartition | server.py:405-410 | the pages from 1 to the last, in order, concatenate to the whole sorted list |
| Listing.PageOfSorted | server.py:408-410 | a page holds only listed names and is sorted when the list is |
| Listing.SortedMatches | server.py:401-404 | the sorted, filtered list is sorted and holds exactly the matching names |
| Listing.ListDirectory | server.py:388-421 | the page is in range, holds at most twenty sorted matching names, and the echoed term is lower-cased (also server2.py:112-155) |
| Listing.OutOfRangePagesClamp | server.py:407 | page 0 shows page 1, and any page past the last shows the last |
| Listing.SearchExample | server.py:399-410 | searching `T` among `Bt`, `c`, `at` shows `at` then `Bt` |
| Pagination.BuildControls | server.py:462-487 | the loop that builds the bar yields the specified controls (also server2.py:257-282) |
| Pagination.AppendWindow | server.py:474-478 | the window loop appends one control per page from the start to the end of the window, in order |
| Pagination.ControlsAroundMiddle | server.py:462-487 | the bar is the previous control, the page links, then the next control |
| Pagination.PrevNextDisabled | server.py:463-466 | previous is disabled exactly on page 1 and next exactly on the last page; otherwise they link to the adjacent pages |
| Pagination.NumberedShape | server.py:475-479 | the numbered window links each page from its start to its end in order, and marks exactly the current page |
| Pagination.MiddleSpaced | server.py:468-484 | the page links run from 1 to the last page in increasing order, with an ellipsis exactly where a gap is |
| Pagination.OneCurrent | server.py:475-479 | exactly one control marks the current page |
| Pagination.ShownPages | server.py:468-484 | a page number is shown iff it is the first, the last or within two of the current page |
| Rows.DirectoryEntry | server.py:492-498 | the link and text are escaped and unescape to the name plus `/`; the one action downloads the same path plus `.zip` (also server2.py:288-295) |
| Rows.FileEntry | server.py:500-516 | the link and text are escaped and unescape to the name; every action uses the link; a preview link appears iff the extension is previewable (also server2.py:297-318) |
| Rows.SearchField | server.py:435 | the echoed search term is attribute-safe and unescapes to the term |
| Rows.PreviewIgnoresCase | server.py:503-512 | the preview test ignores case |
| Rows.UpperCaseExtensionPreviews | server.py:510-512 | `A.MD` gets a preview link |
| Rows.DotFileDoesNotPreview | server.py:510-512 | `.sh` has no extension for `splitext` and gets no preview link |
| FsTree.DescendantsSize | server.py:372-376 | the sum over every file found recursively is the tree's size |
| FsTree.WalkSize | server1.py:199-205 | the sum over an `os.walk` of the files of every visited directory is the tree's size |
| SizeCache.ComputeSize | server.py:367-377 | the `rglob` loop adds the file sizes seen before any failure |
| SizeCache.RglobTotalSpec | server.py:367-377 | without failure the total is the directory's size; with one it is never more |
| SizeCache.TouchCoherent | server.py:366 | a cache hit keeps the cache coherent and makes the key most recently used |
| SizeCache.AdmitCoherent | server.py:366 | a miss stores the new total and keeps other totals; only the least recently used entry of a full cache is evicted |
| SizeCache.DirectorySizeCache.constructor | server.py:366 | the cache starts empty and valid |
| SizeCache.DirectorySizeCache.Lookup | server.py:366-377 | a hit returns the stored total and refreshes recency; a miss computes, admits and returns the total; the cache stays valid |
| SizeCache.DirectorySizeCache.DirectorySize | server.py:379-386 | 0 and no change when the modification time cannot be read; otherwise, under the key of handler, path and time, a hit returns the stored total and makes the key most recently used, and a miss returns the walked total and admits it, evicting the least recently used entry when full (also server2.py:84-110) |
| SizeCache.RepeatedLookup | server.py:366-386 | two lookups of the same key answer the same total, even when the directory changed in between without touching the key |
| Archive.ArchiveOfSpec | server.py:537-541 | the archive has exactly one entry per regular file under the directory, named by its relative path |
| Archive.TempPath | server.py:536 | the temporary path is next to the target and differs from it |
| Archive.FileSystem.constructor | server.py:527 | the file system holds the given nodes |
| Archive.FileSystem.Put | server.py:537 | writing a node replaces the node at that path only |
| Archive.FileSystem.Unlink | server.py:548-550 | removing a path removes only that path |
| Archive.ScanOutside | server.py:537-541 | an archive created outside the directory leaves the archived files unchanged |
| Archive.ScanInside | server.py:537-541 | an archive created inside the directory is found by `rglob` and gets an entry for its own file |
| Archive.TargetInsideDirectory | server.py:527-541 | for `GET /sub/.zip` the temporary archive is `sub/.zip.tmp_<pid>`, and it is archived into itself |
| Archive.FileSystem.WriteArchive | server.py:538-541 | the loop writes the archive of the given files into the empty archive at the temporary path and changes nothing else |
| Archive.FileSystem.WriteAndMove | server.py:537-542 | success iff no fault; then the archive of the files `rglob` finds once the empty temporary archive exists is at the target, and the temporary path is gone; on a fault only the temporary path has changed |
| Archive.FileSystem.CreateZip | server.py:527-552 | an existing target is reused unchanged; a fault-free build places at the target the archive of every file under the directory once the temporary archive exists (the temporary archive itself included when it lies inside); any fault returns false and leaves the target absent and the rest unchanged |
| Archive.FileSystem.CreateZip2 | server2.py:330-364 | as `CreateZip`, except that a failure before the temporary path is bound escapes as an exception |
| Routing.StaticPrefixWins | server.py:687-690 | a request goes to the static handler iff its path starts with `/static/`; `server2.py` has no such route |
| Routing.ZipPathsStayZip | server.py:695-748 | a `.zip` path outside `/static/` is served iff it names a file, built iff it does not but the directory exists, else refused; both versions agree |
| Routing.TextViewOnlyForTextFiles | server.py:751-772 | the text handler gets exactly the non-zip regular files that look like text (server2.py:440-445: by MIME type only) |
| Routing.RouteVersionsAgree | server.py:751-760 | outside `/static/` the two versions differ only on files with a text extension but a non-text MIME type |
| Routing.ZipWithQueryIsNotZip | server.py:695 | a query string after `.zip` defeats the archive test, since the raw path is tested |
| Routing.BeforeQuery | server.py:577 | the path before the first `?` has no `?` and is a prefix of the path |
| Routing.TextDispatch | server.py:554-602 | rendered HTML iff `get_content` with `render=html`, Markdown available and a `.md` name; the raw stream for other `get_content`; otherwise the Markdown viewer iff Markdown is available and the name is `.md`, with an attribute-safe URL that unescapes to the path before `?`, else the code viewer with the path before `?` as it is |
| Routing.ViewerUrl | server.py:677-682 | the URL the Markdown viewer inserts is attribute-safe and unescapes to the path before the query |
| Routing.CodeViewerUrlBreaksAttribute | server.py:577-593 | for `/notes.txt#"` the text handler answers with the code viewer, whose URL carries a raw quote into the attribute; the escaped URL does not |
| Routing.RenderStatuses | server.py:644-675 | 500 alone without the Markdown package, or when opening or converting fails; 404 alone iff the file is missing; 400 alone iff it is not UTF-8; 200 iff all succeeds, and 200 followed by 500 iff writing the page fails |
| Routing.RenderedRequestsHaveMarkdown | server.py:561-567 | a rendered request always has the Markdown package, so a lone 500 for it means that opening or converting the file failed, never that rendering is unavailable |
| Routing.ServeZipStatuses | server.py:697-712 | an existing archive: 200 alone when delivered, 404 alone when `stat` or `open` raises, and 200 then 404 on any copy error, a broken pipe included |
| Routing.DisconnectQuietOnlyForBuiltZip | server.py:697-743 | the existing-archive and built-archive branches agree only on a delivered archive; both start with 200 once the file is open, and a disconnect adds a 404 only to an existing archive's response |
| Routing.BuildZipStatuses | server.py:720-743 | 500 alone when the build failed, the archive is not a file, or `stat`/`open` raises; otherwise 200, which stands alone after a broken pipe and is followed by a 500 status line after any other copy error |
| Streaming.ChunksFlatten | server.py:619-625 | the chunks concatenate back to the file |
| Streaming.ChunksSizes | server.py:619-625 | every chunk is non-empty and at most the chunk size, and all but the last are full |
| Streaming.ChunksCount | server.py:619-625 | the number of chunks is the ceiling of the size over the chunk size |
| Streaming.StreamChunks | server.py:619-625 | the read loop writes all chunks in order, or exactly the chunks before a failing write |
| Streaming.ServeFileContent | server.py:604-642 | 404 for a missing file; otherwise 200 and the file as `Chunks` cuts it into pieces of 16384 bytes, or a prefix of those chunks followed by a 404 status line when reading or writing fails |
| Streaming.DecodeLatin1 | server2.py:455 | Latin-1 decoding maps each byte to the character with that code |
| Streaming.Latin1RoundTrip | server2.py:480 | encoding Latin-1 text back gives the original bytes |
| Streaming.Latin1ServesBytes | server2.py:455-480 | a Latin-1 file without carriage returns is sent byte for byte |
| Streaming.CrLfFolded | server2.py:460-461 | text mode reads CRLF as LF, so the response differs from the file |
| Streaming.Newlines | server2.py:460-461 | text-mode reading leaves no carriage return and never lengthens the text |
| Streaming.NewlinesIdentity | server2.py:460-461 | text without carriage returns is read unchanged |
| Streaming.FirstDecoding | server2.py:455-465 | the chosen encoding decodes the file, and every earlier one in the list fails |
| Streaming.ReadText | server2.py:455-465 | the loop always ends with content, read by the first encoding that decodes the file |
| Streaming.HandleTextFile2 | server2.py:451-489 | 404 alone when opening raises `IOError`; otherwise 200, followed by a 404 status line when the write raises; the "not text" 404 is never sent; the charset names the first encoding that decodes; the text is that decoding |
| ServerV1.PagesV1 | server1.py:65-66 | no page counted for an empty list; nothing shown for page 0 or past the last; otherwise the page's window |
| ServerV1.ListingVersionsAgree | server1.py:49-77 | for an in-range page, the first version shows the same entries as the later ones |
| ServerV1.NegativePageShowsMiddle | server1.py:57-66 | with fifty names, page -1 shows the 11th to 30th names |
| ServerV1.ControlsV1 | server1.py:146-151 | a link to page `page - 1` iff the page is after 1, and one to page `page + 1` iff it is before the last; no other control, at most two, the previous link first |
| ServerV1.AnyEndsWith | server1.py:177 | holds iff the name ends with one of the listed extensions |
| ServerV1.EncodeSpaces | server1.py:163-164 | the link has no spaces, and a name without spaces is unchanged |
| ServerV1.SpacesRoundTrip | server1.py:163-164 | reading `%20` back recovers a name that holds no `%20` of its own |
| ServerV1.DirectoryEntryV1 | server1.py:156-160 | link and text are the raw name plus `/`, and the ZIP link is the raw name plus `.zip` |
| ServerV1.FileEntryV1 | server1.py:162-187 | the text is the raw name; every action uses the space-encoded link; a preview link appears iff a listed extension ends the name |
| ServerV1.UnescapedRowsCarryMarkup | server1.py:156-187 | a name `<b>` reaches the page as markup in the first version and escaped in the later one |
| ServerV1.UpperCaseEndingNeverPreviewsV1 | server1.py:167-177 | the case-sensitive test never previews a name ending in an upper-case letter |
| ServerV1.UpperCaseExtensionV1 | server1.py:177 | `A.MD` previews in the later version but not in the first |
| ServerV1.DotFilePreviewsV1 | server1.py:177 | `.sh` previews in the first version but not in the later one |
| ServerV1.DispatchV1Routes | server1.py:217-263 | where each request goes; `.txt` and `.csv` reach the text handler without a file test; on `.zip` paths it agrees with `server2.py` |
| ServerV1.MissingTextReachesHandlerV1 | server1.py:260-261 | a missing `.txt` reaches the text handler in the first version but not in the later one |
| ServerV1.HandleTextV1 | server1.py:265-284 | always a 200 first; a missing file adds 404 and sends no body; otherwise the text in chunks of 8192 characters; a failure before a chunk cuts the body to the chunks before it, and adds a 404 status line for an `IOError` but nothing for a decoding error |
| ServerV1.DirectorySizeV1 | server1.py:199-205 | the nested `os.walk` loops sum to the directory's size |
| ServerV1.AddFileSizes | server1.py:202-204 | the inner loop adds the sizes of exactly the regular files of one directory |
| ServerV1.ArchiveV1Names | server1.py:214 | without a trailing slash before `.zip`, entry names start with the directory's own name; with one, they are relative to the directory, exactly as server.py names them |
| ServerV1.FillArchiveV1 | server1.py:211-215 | the empty archive at the target gets every given file, or, when writing raises, some but not all of the entries, each naming the same source as in the full archive; no other node changes |
| ServerV1.TargetInsideDirectoryV1 | server1.py:207-215 | for `GET /sub/.zip` the target lies inside `sub`, so `os.walk` lists it and the archive gets an entry `.zip` for its own file |
| ServerV1.CreateZipV1 | server1.py:207-215 | an existing target is reused; otherwise the archive is created at the target itself, holds every file `os.walk` then finds (itself included when it lies inside the directory) named relative to `dirname` of the directory, and, when writing fails, stays partial: some but not all of those entries, each naming its proper source, with every other node unchanged |
| ServerV1.BuildAndSendV1 | server1.py:238-259 | a successful build, named as `CreateZipV1` names its entries, is sent and removed; a failed one leaves the partial archive at the target and changes no other node; an archive found at the target is sent and then removed, which happens only when another request created it after the dispatch test, because dispatch sends an existing file to the first branch, which never removes it |
| ServerV1.RetryAfterFailedBuildV1 | server1.py:222-259 | after a failed build, the next request for that `.zip` serves the partial archive as it is, which is the only node that changed |
| TreeReport.NewConfig | print_dir_info/print_file_tree.py:9-33 | the ignore sets hold exactly the given names; the extension sets hold exactly the lower-cased given extensions; the maximum size is kept |
| TreeReport.LStripDots | print_dir_info/print_file_tree.py:45 | only leading dots are removed, and none remains |
| TreeReport.Ext | print_dir_info/print_file_tree.py:45 | the lower-cased suffix without its dot, empty when there is no suffix |
| TreeReport.ShouldIncludeFile | print_dir_info/print_file_tree.py:35-55 | a file is kept iff its size is known and within the limit, its name is not ignored or hidden, it passes the include list when there is one, and it is not excluded |
| TreeReport.DefaultSizeLimit | print_dir_info/print_file_tree.py:16-42 | with the default maximum size and no extension lists, an acceptably named file is kept iff it is at most 10 MiB |
| TreeReport.ExtensionCaseIgnored | print_dir_info/print_file_tree.py:31-50 | configured extensions match regardless of case |
| TreeReport.DottedIncludeKeepsNothing | print_dir_info/print_file_tree.py:31-48 | an include list whose every entry starts with `.` keeps no file, because extensions lose their dot |
| TreeReport.KeptFilesComplete | print_dir_info/print_file_tree.py:92-95 | every file of a visited directory that passes the filter is listed |
| TreeReport.KeptFilesSound | print_dir_info/print_file_tree.py:92-95 | every listed item comes from a file of that directory for which `should_include_file` held, and sits one level below it |
| TreeReport.CollectWellPlaced | print_dir_info/print_file_tree.py:84-95 | every item's level is its depth; every directory on its path passed the directory filter; every file passed the name checks |
| TreeReport.WalkStep | print_dir_info/print_file_tree.py:84-95 | one walk step emits the directory, its kept files, and pushes its kept subdirectories; the remaining work shrinks |
| TreeReport.KeepFiles | print_dir_info/print_file_tree.py:92-95 | the loop keeps the files the filter accepts, in order |
| TreeReport.CollectItems | print_dir_info/print_file_tree.py:84-95 | the walk loop lists the root, then each kept directory with its kept files, depth first, pruning rejected directories; nothing for a regular file |
| TreeReport.RootListedFirst | print_dir_info/print_file_tree.py:88-104 | the root comes first at level 0, so the outline starts with its name and `/` |
| TreeReport.Indent | print_dir_info/print_file_tree.py:100 | four spaces per level |
| TreeReport.StructureLine | print_dir_info/print_file_tree.py:100-104 | an outline line is the indentation, the name, a `/` for a directory, and a newline |
| TreeReport.WriteStructure | print_dir_info/print_file_tree.py:98-104 | the loop writes one outline line per item, in order |
| TreeReport.FilesOnly | print_dir_info/print_file_tree.py:108 | exactly the file items, never more items than given |
| TreeReport.SectionsFollowItems | print_dir_info/print_file_tree.py:107-124 | the contents of two item lists are those of the first then the second |
| TreeReport.RStrip | print_dir_info/print_file_tree.py:116 | `rstrip` removes exactly the trailing whitespace |
| TreeReport.Body | print_dir_info/print_file_tree.py:114-120 | undecodable files give the placeholder; otherwise the longest prefix of the text that does not end in whitespace (`rstrip`), then a newline |
| TreeReport.WriteContents | print_dir_info/print_file_tree.py:107-124 | the loop writes one section per kept file, in walk order |
| TreeReport.ConfigKeys | print_dir_info/print_file_tree.py:67-79 | a setting is listed iff it is non-empty, and the size limit, always non-empty, comes last |
| TreeReport.WriteConfiguration | print_dir_info/print_file_tree.py:76-78 | the loop lists the non-empty settings in order |
| TreeReport.Generate | print_dir_info/print_file_tree.py:61-130 | true iff the output can be written; then the settings, outline and contents are those specified (for a regular file the headers with an empty outline); false writes nothing |

## Left out

- The network, sockets, headers other than the status and content type, port handling, logging, `tqdm` progress bars and process start-up are not modelled.
- Threads and the process-wide archive lock are not modelled. Each build runs alone, as the lock ensures.
- `translate_path`, `mimetypes`, `parse_qs`, `quote` and `unquote` are not modelled. Their results are inputs to the model.
- The ZIP byte format is not modelled. An archive is a map from entry names to source paths.
- The Markdown converter is not modelled. Its success or failure is an input.
- HTML templates, CSS and scripts are not modelled. Rows and the pagination bar are reduced to their insertion slots.
- `human_readable_size` and the modification-date text use floating point and the clock. They are not modelled and are passed in as strings.
- `int()` parsing of the `page` parameter, with its `ValueError`, is not modelled. The page is given as an integer.
- A `list_directory` whose `iterdir` fails answers 404 before any listing work. The model starts from the names read.
- Directory trees have no symbolic links and no unreadable directories. A broken link makes `os.path.getsize` raise out of server1.py's size column (server1.py:204), and `os.walk` and `rglob` silently skip directories they cannot list. The model does not capture either.
- `Archive.FileSystem.CreateZip`, `Archive.FileSystem.CreateZip2` and `ServerV1.CreateZipV1`: when the archive lies inside the archived directory, its entry for itself records only the source path. What is read from a file that is being written is not modelled.
- `Strings.Lower`: lower-cases ASCII letters only. Python's `lower()` also folds non-ASCII letters.
- `TreeReport.WriteConfiguration`: lists which settings are written, not how their values are printed. Python's set display order depends on hashing, and the size uses floating point.
- `TreeReport.Body`: the `[Error reading file: ...]` text for other read errors is not modelled. It embeds an exception message.
- `TreeReport.CollectItems`: the order of a directory's children is the tree's order. `os.walk` uses the operating system's listing order.
- `TreeReport.ShouldIncludeFile`: the `stat()` failure path is modelled by an absent size. The walk in the model always supplies a size.
- `TreeReport.Generate`: a failure midway through writing is not modelled. The output file lying inside the walked directory is not modelled either.
- `SizeCache.DirectorySizeCache.DirectorySize`: the unused time-to-live constant has no effect in the source, and it is omitted.
- `Streaming.ServeFileContent`: the `BrokenPipeError` and generic-exception handlers cannot be reached. The earlier `except IOError` catches every read or write failure, so only that handler is modelled.

## Findings

| source | as written | input that shows it | evidently intended | confidence | as-written member | corrected member |
|---|---|---|---|---|---|---|
| server1.py:57-66 | the page number is used unclamped in a Python slice | 50 names and `page=-1`: the 11th to 30th names are shown, labelled page -1 | clamp the page into `[1, total]` | not executed | ServerV1.NegativePageShowsMiddle | Listing.OutOfRangePagesClamp |
| server1.py:156-187 | names are inserted into the markup unescaped | a file named `<b>` is rendered as markup | escape names in text and attributes | not executed | ServerV1.UnescapedRowsCarryMarkup | Rows.FileEntry |
| server1.py:207-257 | the archive is written at its final path; a failure leaves a partial file there | a write error after one of two files; the next request serves the one-file archive | write to a temporary path and move it into place only on success | not executed | ServerV1.RetryAfterFailedBuildV1 | Archive.FileSystem.CreateZip |
| server1.py:260-284 | `.txt` paths reach the handler without a file test, and it sends 200 before opening | `GET /missing.txt`: status 200 followed by a 404 status line | answer 404 alone for a missing file | not executed | ServerV1.MissingTextReachesHandlerV1 | Streaming.ServeFileContent |
| server.py:577-593 | the code viewer inserts the raw URL unescaped, while the Markdown viewer escapes it | `GET /notes.txt#"`: a double quote lands inside the `href` attribute | escape the raw URL for an attribute in both viewers | not executed | Routing.CodeViewerUrlBreaksAttribute | Routing.ViewerUrl |
