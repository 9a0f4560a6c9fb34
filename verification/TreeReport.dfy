/**
 * print_dir_info/print_file_tree.py: `FileTreeGenerator` writes a report of
 * a directory: the non-empty settings, an indented outline of the
 * directories it walks and the files it keeps, and the text of every kept
 * file. The directory is an `FsTree.Tree` read once; the output file is a
 * string the report is appended to.
 */
module TreeReport {
  import opened Wrappers
  import opened Strings
  import opened FsTree
  import Streaming

  // ---------------------------------------------------------------------------
  // Settings (`__init__`)
  // ---------------------------------------------------------------------------

  /** The generator's settings after `__init__` has normalised them. */
  datatype Config = Config(ignoreDirs: set<string>, ignoreFiles: set<string>,
                           includeExts: set<string>, excludeExts: set<string>, maxSize: int)

  /** `max_file_size` when none is given: 10 MiB. */
  const DefaultMaxSize: int := 10 * 1024 * 1024

  /** `set(ext.lower() for ext in exts)` */
  function LowerSet(exts: seq<string>): set<string>
  {
    set e | e in exts :: Lower(e)
  }

  lemma LowerSetSpec(exts: seq<string>)
    ensures forall e :: e in exts ==> Lower(e) in LowerSet(exts)
    ensures forall x :: x in LowerSet(exts) ==> Lower(x) == x && exists e :: e in exts && Lower(e) == x
    ensures LowerSet(exts) == {} <==> exts == []
  {
    forall e | e in exts ensures Lower(Lower(e)) == Lower(e) {
      LowerIsLower(e);
    }
    if exts != [] {
      assert Lower(exts[0]) in LowerSet(exts);
    }
  }

  /**
   * `__init__`: the ignore lists become sets as given; the extension lists
   * become sets of their lower-cased members (`None` is the empty list).
   */
  function NewConfig(ignoreDirs: seq<string>, ignoreFiles: seq<string>, includeExts: seq<string>,
                     excludeExts: seq<string>, maxSize: int): (c: Config)
    ensures forall d :: d in c.ignoreDirs <==> d in ignoreDirs
    ensures forall f :: f in c.ignoreFiles <==> f in ignoreFiles
    ensures forall e :: e in includeExts ==> Lower(e) in c.includeExts
    ensures forall x :: x in c.includeExts ==> Lower(x) == x && exists e :: e in includeExts && Lower(e) == x
    ensures forall e :: e in excludeExts ==> Lower(e) in c.excludeExts
    ensures forall x :: x in c.excludeExts ==> Lower(x) == x && exists e :: e in excludeExts && Lower(e) == x
    ensures c.includeExts == {} <==> includeExts == []
    ensures c.maxSize == maxSize
  {
    LowerSetSpec(includeExts);
    LowerSetSpec(excludeExts);
    Config((set d | d in ignoreDirs), (set f | f in ignoreFiles), LowerSet(includeExts), LowerSet(excludeExts), maxSize)
  }

  // ---------------------------------------------------------------------------
  // `should_include_file` and `should_include_dir`
  // ---------------------------------------------------------------------------

  /** `s.lstrip('.')` */
  function LStripDots(s: string): (r: string)
    ensures |r| <= |s| && r == s[|s| - |r|..]
    ensures r == [] || r[0] != '.'
    ensures forall k :: 0 <= k < |s| - |r| ==> s[k] == '.'
  {
    if s != [] && s[0] == '.' then LStripDots(s[1..]) else s
  }

  /** `file_path.suffix.lower().lstrip('.')`: the extension without its dot, lower-cased. */
  function Ext(name: string): (r: string)
    ensures r == [] || r[0] != '.'
    ensures forall i :: 0 <= i < |r| ==> !IsUpper(r[i])
    ensures PathSuffix(name) == [] ==> r == []
    ensures PathSuffix(name) != [] ==> r == Lower(PathSuffix(name))[1..] && |r| > 0
  {
    StripSuffixDot(PathSuffix(name));
    LStripDots(Lower(PathSuffix(name)))
  }

  /** A suffix has one leading dot and no other, so `lstrip` removes exactly that dot. */
  lemma StripSuffixDot(p: string)
    requires p == [] || (1 < |p| && p[0] == '.' && '.' !in p[1..])
    ensures var r := LStripDots(Lower(p));
            (r == [] || r[0] != '.') &&
            (forall i :: 0 <= i < |r| ==> !IsUpper(r[i])) &&
            (p == [] ==> r == []) &&
            (p != [] ==> r == Lower(p)[1..] && |r| > 0)
  {
    var s := Lower(p);
    LowerIsLower(p);
    if p != [] {
      assert s[0] == '.';
      assert '.' !in s[1..] by {
        forall k | 1 <= k < |s| ensures s[k] != '.' {
          assert p[k] in p[1..];
        }
      }
      assert LStripDots(s[1..]) == s[1..];
    }
  }

  /**
   * `should_include_file`: `size` is `stat().st_size`, None when `stat`
   * raised (the `except Exception` branch). The checks run in the order of
   * the source: size, then name, then the include list, then the exclude
   * list.
   */
  function ShouldIncludeFile(c: Config, name: string, size: Option<int>): (b: bool)
    ensures b <==> size.Some? && size.value <= c.maxSize &&
                   name !in c.ignoreFiles && !StartsWith(name, ".") &&
                   (c.includeExts == {} || Ext(name) in c.includeExts) && Ext(name) !in c.excludeExts
  {
    match size
    case None => false
    case Some(n) =>
      if n > c.maxSize then false
      else if name in c.ignoreFiles || StartsWith(name, ".") then false
      else if c.includeExts != {} && Ext(name) !in c.includeExts then false
      else if Ext(name) in c.excludeExts then false
      else true
  }

  /** `should_include_dir` */
  predicate ShouldIncludeDir(c: Config, d: string)
  {
    !(d in c.ignoreDirs || StartsWith(d, "."))
  }

  /**
   * Extensions are compared without regard to case: a small enough file with
   * an acceptable name is kept exactly when some listed include extension
   * (any list when none is given) and no listed exclude extension equals
   * its extension once lower-cased.
   */
  lemma ExtensionCaseIgnored(ignoreDirs: seq<string>, ignoreFiles: seq<string>, includeExts: seq<string>,
                             excludeExts: seq<string>, maxSize: int, name: string, size: int)
    requires size <= maxSize && name !in ignoreFiles && !StartsWith(name, ".")
    ensures ShouldIncludeFile(NewConfig(ignoreDirs, ignoreFiles, includeExts, excludeExts, maxSize), name, Some(size)) <==>
              (includeExts == [] || exists e :: e in includeExts && Lower(e) == Ext(name)) &&
              !(exists e :: e in excludeExts && Lower(e) == Ext(name))
  {
  }

  /**
   * With `max_file_size` left at its default and no extension lists, a file
   * with an acceptable name is kept exactly when it is at most 10 MiB.
   */
  lemma DefaultSizeLimit(ignoreDirs: seq<string>, ignoreFiles: seq<string>, name: string, size: int)
    requires name !in ignoreFiles && !StartsWith(name, ".")
    ensures ShouldIncludeFile(NewConfig(ignoreDirs, ignoreFiles, [], [], DefaultMaxSize), name, Some(size)) <==>
              size <= 10_485_760
  {
  }

  /**
   * The extension compared is stripped of its dot, so include extensions
   * written with a leading dot (".py") match no file at all.
   */
  lemma DottedIncludeKeepsNothing(c: Config, name: string, size: Option<int>)
    requires c.includeExts != {}
    requires forall e :: e in c.includeExts ==> StartsWith(e, ".")
    ensures !ShouldIncludeFile(c, name, size)
  {
    var x := Ext(name);
  }

  // ---------------------------------------------------------------------------
  // Collecting the items (`os.walk` with pruning)
  // ---------------------------------------------------------------------------

  datatype Kind = DirKind | FileKind

  /**
   * One entry of `all_items`: its kind, its name, its path relative to the
   * walked directory (as components) and its indentation level. A file item
   * also carries the file's text as read later (None when it is not UTF-8).
   */
  datatype Item = Item(kind: Kind, name: string, rel: seq<string>, level: nat, text: Option<string>)

  /** `('file', root_path / file, level + 1)` for a file in the directory at `dir`. */
  function FileItem(f: Tree, dir: seq<string>): Item
    requires f.File?
  {
    Item(FileKind, f.name, dir + [f.name], |dir| + 1, f.text)
  }

  /** The items for the files directly in a directory that `should_include_file` keeps, in listing order. */
  function KeptFiles(c: Config, ts: seq<Tree>, dir: seq<string>): seq<Item>
    decreases |ts|
  {
    if ts == [] then []
    else
      var f := ts[|ts| - 1];
      KeptFiles(c, ts[..|ts| - 1], dir) +
      (if f.File? && ShouldIncludeFile(c, f.name, Some(f.size)) then [FileItem(f, dir)] else [])
  }

  /**
   * The items the walk of `t` adds, `t` being at `rel`: the directory
   * itself, its kept files, then the walks of the subdirectories that
   * `should_include_dir` keeps, in listing order.
   */
  function Collect(c: Config, t: Tree, rel: seq<string>): seq<Item>
    decreases t
  {
    match t
    case File(_, _, _) => []
    case Dir(name, children) =>
      [Item(DirKind, name, rel, |rel|, None)] + KeptFiles(c, children, rel) + CollectForest(c, children, rel)
  }

  function CollectForest(c: Config, ts: seq<Tree>, rel: seq<string>): seq<Item>
    decreases ts
  {
    if ts == [] then []
    else
      (if ts[0].Dir? && ShouldIncludeDir(c, ts[0].name) then Collect(c, ts[0], rel + [ts[0].name]) else []) +
      CollectForest(c, ts[1..], rel)
  }

  /** Every file of a directory that `should_include_file` keeps gets an item. */
  lemma {:induction false} KeptFilesComplete(c: Config, ts: seq<Tree>, dir: seq<string>)
    ensures forall f :: f in ts && f.File? && ShouldIncludeFile(c, f.name, Some(f.size)) ==>
              FileItem(f, dir) in KeptFiles(c, ts, dir)
    decreases |ts|
  {
    if ts != [] {
      var init, last := ts[..|ts| - 1], ts[|ts| - 1];
      KeptFilesComplete(c, init, dir);
      assert ts == init + [last];
      forall f | f in ts && f.File? && ShouldIncludeFile(c, f.name, Some(f.size))
        ensures FileItem(f, dir) in KeptFiles(c, ts, dir)
      {
        if f != last {
          assert f in init;
        }
      }
    }
  }

  /**
   * Every item for a directory's files comes from one of its files that
   * passed `should_include_file`, and is that file one level below it.
   */
  lemma {:induction false} KeptFilesSound(c: Config, ts: seq<Tree>, dir: seq<string>)
    ensures forall it :: it in KeptFiles(c, ts, dir) ==>
              exists f :: f in ts && f.File? && ShouldIncludeFile(c, f.name, Some(f.size)) && it == FileItem(f, dir)
    ensures forall it :: it in KeptFiles(c, ts, dir) ==>
              it.kind == FileKind && it.rel == dir + [it.name] && it.level == |dir| + 1 &&
              it.name !in c.ignoreFiles && !StartsWith(it.name, ".")
    decreases |ts|
  {
    if ts != [] {
      var init, last := ts[..|ts| - 1], ts[|ts| - 1];
      KeptFilesSound(c, init, dir);
      forall it | it in KeptFiles(c, ts, dir)
        ensures exists f :: f in ts && f.File? && ShouldIncludeFile(c, f.name, Some(f.size)) && it == FileItem(f, dir)
      {
        if it in KeptFiles(c, init, dir) {
          var f :| f in init && f.File? && ShouldIncludeFile(c, f.name, Some(f.size)) && it == FileItem(f, dir);
          assert f in ts;
        } else {
          assert last in ts;
        }
      }
    }
  }

  /**
   * Where an item of a walk started at `base` may lie: its level is the
   * number of components of its relative path, it lies below `base`, every
   * directory it lies in below `base` passed `should_include_dir`, and a
   * file item is named by its last component and passed the name test.
   */
  predicate WellPlaced(c: Config, base: seq<string>, it: Item)
  {
    it.level == |it.rel| && |base| <= |it.rel| && it.rel[..|base|] == base &&
    (it.kind == FileKind ==>
       |base| < |it.rel| && it.name == it.rel[|it.rel| - 1] && it.name !in c.ignoreFiles && !StartsWith(it.name, ".")) &&
    forall k :: |base| <= k < |it.rel| - (if it.kind == FileKind then 1 else 0) ==> ShouldIncludeDir(c, it.rel[k])
  }

  /** An item placed well below a kept subdirectory is placed well below its parent. */
  lemma Lift(c: Config, base: seq<string>, d: string, it: Item)
    requires ShouldIncludeDir(c, d) && WellPlaced(c, base + [d], it)
    ensures WellPlaced(c, base, it)
  {
    assert it.rel[..|base|] == it.rel[..|base| + 1][..|base|];
    assert it.rel[|base|] == it.rel[..|base| + 1][|base|];
  }

  /**
   * Levels count path components (the walked directory is level 0, its
   * files level 1), and nothing is collected from inside a directory that
   * `should_include_dir` rejects: pruned directories are never descended.
   */
  lemma {:induction false} CollectWellPlaced(c: Config, t: Tree, rel: seq<string>)
    ensures forall it :: it in Collect(c, t, rel) ==> WellPlaced(c, rel, it)
    decreases t
  {
    match t
    case File(_, _, _) =>
    case Dir(name, children) =>
      KeptFilesSound(c, children, rel);
      CollectForestWellPlaced(c, children, rel);
      forall it | it in KeptFiles(c, children, rel) ensures WellPlaced(c, rel, it) {
        assert it.rel[..|rel|] == rel;
      }
  }

  lemma {:induction false} CollectForestWellPlaced(c: Config, ts: seq<Tree>, rel: seq<string>)
    ensures forall it :: it in CollectForest(c, ts, rel) ==> WellPlaced(c, rel, it)
    decreases ts
  {
    if ts != [] {
      CollectForestWellPlaced(c, ts[1..], rel);
      if ts[0].Dir? && ShouldIncludeDir(c, ts[0].name) {
        CollectWellPlaced(c, ts[0], rel + [ts[0].name]);
        forall it | it in Collect(c, ts[0], rel + [ts[0].name]) ensures WellPlaced(c, rel, it) {
          Lift(c, rel, ts[0].name, it);
        }
      }
    }
  }

  /** A directory still to be walked, and where it lies. */
  datatype Frame = Frame(tree: Tree, rel: seq<string>)

  /** `dirs[:] = [d for d in dirs if self.should_include_dir(d)]`, as walk frames. */
  function Subframes(c: Config, ts: seq<Tree>, rel: seq<string>): (r: seq<Frame>)
    ensures forall i :: 0 <= i < |r| ==> r[i].tree.Dir?
  {
    if ts == [] then []
    else
      (if ts[0].Dir? && ShouldIncludeDir(c, ts[0].name) then [Frame(ts[0], rel + [ts[0].name])] else []) +
      Subframes(c, ts[1..], rel)
  }

  /** The items still to come from the frames of the walk. */
  function Remaining(c: Config, stack: seq<Frame>): seq<Item>
  {
    if stack == [] then [] else Collect(c, stack[0].tree, stack[0].rel) + Remaining(c, stack[1..])
  }

  lemma {:induction false} RemainingAppend(c: Config, a: seq<Frame>, b: seq<Frame>)
    ensures Remaining(c, a + b) == Remaining(c, a) + Remaining(c, b)
    decreases |a|
  {
    if a == [] {
      assert a + b == b;
    } else {
      assert (a + b)[1..] == a[1..] + b;
      RemainingAppend(c, a[1..], b);
    }
  }

  /** The frames pushed for a directory's kept subdirectories yield the walks of those subdirectories. */
  lemma {:induction false} RemainingSubframes(c: Config, ts: seq<Tree>, rel: seq<string>)
    ensures Remaining(c, Subframes(c, ts, rel)) == CollectForest(c, ts, rel)
    decreases ts
  {
    if ts != [] {
      RemainingSubframes(c, ts[1..], rel);
      var head := if ts[0].Dir? && ShouldIncludeDir(c, ts[0].name) then [Frame(ts[0], rel + [ts[0].name])] else [];
      RemainingAppend(c, head, Subframes(c, ts[1..], rel));
    }
  }

  /** The number of nodes of a tree: what the walk still has to visit. */
  function Count(t: Tree): nat
    decreases t
  {
    match t
    case File(_, _, _) => 1
    case Dir(_, children) => 1 + CountOf(children)
  }

  function CountOf(ts: seq<Tree>): nat
    decreases ts
  {
    if ts == [] then 0 else Count(ts[0]) + CountOf(ts[1..])
  }

  function Weight(stack: seq<Frame>): nat
  {
    if stack == [] then 0 else Count(stack[0].tree) + Weight(stack[1..])
  }

  lemma {:induction false} WeightAppend(a: seq<Frame>, b: seq<Frame>)
    ensures Weight(a + b) == Weight(a) + Weight(b)
    decreases |a|
  {
    if a == [] {
      assert a + b == b;
    } else {
      assert (a + b)[1..] == a[1..] + b;
      WeightAppend(a[1..], b);
    }
  }

  lemma {:induction false} SubframesWeight(c: Config, ts: seq<Tree>, rel: seq<string>)
    ensures Weight(Subframes(c, ts, rel)) <= CountOf(ts)
    decreases ts
  {
    if ts != [] {
      SubframesWeight(c, ts[1..], rel);
      var head := if ts[0].Dir? && ShouldIncludeDir(c, ts[0].name) then [Frame(ts[0], rel + [ts[0].name])] else [];
      WeightAppend(head, Subframes(c, ts[1..], rel));
    }
  }

  /**
   * One round of the walk: the frame on top yields its directory item and
   * its kept files, and is replaced by the frames of its kept
   * subdirectories, which leaves less to visit.
   */
  lemma WalkStep(c: Config, top: Frame, rest: seq<Frame>)
    requires top.tree.Dir?
    ensures Remaining(c, [top] + rest) ==
              [Item(DirKind, top.tree.name, top.rel, |top.rel|, None)] + KeptFiles(c, top.tree.children, top.rel) +
              Remaining(c, Subframes(c, top.tree.children, top.rel) + rest)
    ensures Weight(Subframes(c, top.tree.children, top.rel) + rest) < Weight([top] + rest)
  {
    var ch := top.tree.children;
    assert ([top] + rest)[1..] == rest;
    RemainingSubframes(c, ch, top.rel);
    RemainingAppend(c, Subframes(c, ch, top.rel), rest);
    SubframesWeight(c, ch, top.rel);
    WeightAppend(Subframes(c, ch, top.rel), rest);
  }

  /** `for file in files: if self.should_include_file(...): all_items.append(...)` */
  method KeepFiles(c: Config, children: seq<Tree>, rel: seq<string>) returns (kept: seq<Item>)
    ensures kept == KeptFiles(c, children, rel)
  {
    kept := [];
    var i := 0;
    while i < |children|
      invariant 0 <= i <= |children|
      invariant kept == KeptFiles(c, children[..i], rel)
    {
      var f := children[i];
      KeptFilesStep(c, children, rel, i);
      if f.File? && ShouldIncludeFile(c, f.name, Some(f.size)) {
        kept := kept + [FileItem(f, rel)];
      }
      i := i + 1;
    }
    assert children[..|children|] == children;
  }

  /** Looking at one more child adds its item when it is a kept file. */
  lemma KeptFilesStep(c: Config, children: seq<Tree>, rel: seq<string>, i: nat)
    requires i < |children|
    ensures var f := children[i];
            KeptFiles(c, children[..i + 1], rel) ==
            KeptFiles(c, children[..i], rel) +
            (if f.File? && ShouldIncludeFile(c, f.name, Some(f.size)) then [FileItem(f, rel)] else [])
  {
    assert children[..i + 1][..i] == children[..i];
  }

  /**
   * The collecting loop of `generate`: `os.walk` top-down, which takes the
   * next directory from a stack, lists it, lets the caller prune `dirs`, and
   * then visits the remaining subdirectories in order.
   */
  method CollectItems(c: Config, root: Tree) returns (items: seq<Item>)
    ensures items == Collect(c, root, [])
  {
    items := [];
    // `os.walk` of a regular file yields nothing: its listing fails and the error is ignored
    var stack := if root.Dir? then [Frame(root, [])] else [];
    assert Remaining(c, stack) == Collect(c, root, []) + Remaining(c, []);
    while stack != []
      invariant AllDirs(stack)
      invariant items + Remaining(c, stack) == Collect(c, root, [])
      decreases Weight(stack)
    {
      var top := stack[0];
      var kept := KeepFiles(c, top.tree.children, top.rel);
      LoopStep(c, items, stack, Collect(c, root, []));
      items := items + [Item(DirKind, top.tree.name, top.rel, |top.rel|, None)] + kept;
      stack := Subframes(c, top.tree.children, top.rel) + stack[1..];
    }
  }

  predicate AllDirs(stack: seq<Frame>)
  {
    forall i :: 0 <= i < |stack| ==> stack[i].tree.Dir?
  }

  /** One round of `CollectItems` keeps its invariant and shrinks the work left. */
  lemma LoopStep(c: Config, items: seq<Item>, stack: seq<Frame>, all: seq<Item>)
    requires stack != [] && AllDirs(stack)
    requires items + Remaining(c, stack) == all
    ensures var top := stack[0];
            var next := Subframes(c, top.tree.children, top.rel) + stack[1..];
            AllDirs(next) && Weight(next) < Weight(stack) &&
            items + [Item(DirKind, top.tree.name, top.rel, |top.rel|, None)] + KeptFiles(c, top.tree.children, top.rel) +
            Remaining(c, next) == all
  {
    var top, rest := stack[0], stack[1..];
    assert stack == [top] + rest;
    WalkStep(c, top, rest);
    var dirItem := Item(DirKind, top.tree.name, top.rel, |top.rel|, None);
    var kept := KeptFiles(c, top.tree.children, top.rel);
    var next := Subframes(c, top.tree.children, top.rel) + rest;
    var left := Remaining(c, next);
    AppendAssoc(items + [dirItem], kept, left);
    AppendAssoc(items, [dirItem], kept + left);
    AppendAssoc([dirItem], kept, left);
  }

  // ---------------------------------------------------------------------------
  // Writing the report
  // ---------------------------------------------------------------------------

  /** `"    " * level` */
  function Indent(level: nat): (r: string)
    ensures |r| == 4 * level
    ensures forall i :: 0 <= i < |r| ==> r[i] == ' '
  {
    if level == 0 then "" else Indent(level - 1) + "    "
  }

  /**
   * One line of the directory structure: four spaces per level, the name,
   * and a slash after a directory's name.
   */
  function StructureLine(it: Item): (line: string)
    ensures |line| == 4 * it.level + |it.name| + (if it.kind == DirKind then 2 else 1)
    ensures forall i :: 0 <= i < 4 * it.level ==> line[i] == ' '
    ensures line[4 * it.level..4 * it.level + |it.name|] == it.name
    ensures line[|line| - 1] == '\n'
    ensures it.kind == DirKind ==> line[|line| - 2] == '/'
  {
    var line := Indent(it.level) + it.name + (if it.kind == DirKind then "/\n" else "\n");
    assert line[4 * it.level..4 * it.level + |it.name|] == it.name;
    line
  }

  function Structure(items: seq<Item>): string
  {
    if items == [] then "" else StructureLine(items[0]) + Structure(items[1..])
  }

  /** The loop writing the directory structure: one line per item, in order. */
  method WriteStructure(items: seq<Item>) returns (out: string)
    ensures out == Structure(items)
  {
    out := "";
    assert items[0..] == items;
    for i := 0 to |items|
      invariant out + Structure(items[i..]) == Structure(items)
    {
      assert items[i..][1..] == items[i + 1..];
      out := out + StructureLine(items[i]);
    }
  }

  /** `[item for item in all_items if item[0] == 'file']` */
  function FilesOnly(items: seq<Item>): (r: seq<Item>)
    ensures forall it :: it in r <==> it in items && it.kind == FileKind
    ensures |r| <= |items|
  {
    if items == [] then []
    else (if items[0].kind == FileKind then [items[0]] else []) + FilesOnly(items[1..])
  }

  /** The file items keep their collection order. */
  lemma {:induction false} FilesOnlyAppend(a: seq<Item>, b: seq<Item>)
    ensures FilesOnly(a + b) == FilesOnly(a) + FilesOnly(b)
    decreases |a|
  {
    if a == [] {
      assert a + b == b;
    } else {
      assert (a + b)[1..] == a[1..] + b;
      FilesOnlyAppend(a[1..], b);
    }
  }

  /** The characters Python's `str.isspace` accepts. */
  predicate IsSpace(ch: char)
  {
    ch == ' ' || '\t' <= ch <= '\r' || '\U{1c}' <= ch <= '\U{1f}' || ch == '\U{85}' || ch == '\U{a0}' ||
    ch == '\U{1680}' || '\U{2000}' <= ch <= '\U{200a}' || ch == '\U{2028}' || ch == '\U{2029}' ||
    ch == '\U{202f}' || ch == '\U{205f}' || ch == '\U{3000}'
  }

  /** `s.rstrip()`: the text without its trailing white space. */
  function RStrip(s: string): (r: string)
    ensures r <= s
    ensures r == [] || !IsSpace(r[|r| - 1])
    ensures forall k :: |r| <= k < |s| ==> IsSpace(s[k])
  {
    if s != [] && IsSpace(s[|s| - 1]) then RStrip(s[..|s| - 1]) else s
  }

  /** `str(relative_path)`: the components joined with `/`. */
  function Join(parts: seq<string>): string
  {
    if parts == [] then "." else if |parts| == 1 then parts[0] else parts[0] + "/" + Join(parts[1..])
  }

  /**
   * What goes between the fences: the text read in text mode (universal
   * newlines) and right-stripped, or the placeholder when it is not UTF-8.
   */
  function Body(text: Option<string>): (r: string)
    ensures text.None? ==> r == "[Binary file or encoding error]\n"
    ensures text.Some? ==>
              var s := Streaming.Newlines(text.value);
              0 < |r| <= |s| + 1 && r[..|r| - 1] == s[..|r| - 1] && r[|r| - 1] == '\n' &&
              forall k :: |r| - 1 <= k < |s| ==> IsSpace(s[k])
    ensures text.Some? ==> |r| == 1 || !IsSpace(r[|r| - 2])
  {
    match text
    case None => "[Binary file or encoding error]\n"
    case Some(s) =>
      var r := RStrip(Streaming.Newlines(s));
      assert (r + "\n")[..|r|] == r;
      r + "\n"
  }

  function Section(it: Item): string
  {
    "\n### File: " + Join(it.rel) + "\n" + "```\n" + Body(it.text) + "```\n" + "\n---\n"
  }

  function Sections(files: seq<Item>): string
  {
    if files == [] then "" else Section(files[0]) + Sections(files[1..])
  }

  /** The loop writing the file contents: one section per file item, in collection order. */
  method WriteContents(items: seq<Item>) returns (out: string)
    ensures out == Sections(FilesOnly(items))
  {
    var files := FilesOnly(items);
    out := "";
    assert files[0..] == files;
    for i := 0 to |files|
      invariant out + Sections(files[i..]) == Sections(files)
    {
      SectionsStep(files, i, out);
      out := out + Section(files[i]);
    }
  }

  /** Writing the next section moves it from what is left to what is written. */
  lemma SectionsStep(files: seq<Item>, i: nat, out: string)
    requires i < |files|
    ensures (out + Section(files[i])) + Sections(files[i + 1..]) == out + Sections(files[i..])
  {
    assert files[i..][1..] == files[i + 1..];
    var s, rest := Section(files[i]), Sections(files[i + 1..]);
    assert Sections(files[i..]) == s + rest;
    AppendAssoc(out, s, rest);
  }

  // ---------------------------------------------------------------------------
  // `generate`
  // ---------------------------------------------------------------------------

  /** The entries of `config_items`, in their order. */
  datatype Setting = IgnoredDirectories | IgnoredFiles | IncludedExtensions | ExcludedExtensions | MaxFileSize

  const SettingOrder: seq<Setting> := [IgnoredDirectories, IgnoredFiles, IncludedExtensions, ExcludedExtensions, MaxFileSize]

  /** The key written before a setting's value. */
  function Label(s: Setting): string
  {
    match s
    case IgnoredDirectories => "Ignored directories"
    case IgnoredFiles => "Ignored files"
    case IncludedExtensions => "Included extensions"
    case ExcludedExtensions => "Excluded extensions"
    case MaxFileSize => "Max file size"
  }

  /** `if value:` for each setting: a set when non-empty; the size text (such as "10.00MB") always. */
  predicate Truthy(c: Config, s: Setting)
  {
    match s
    case IgnoredDirectories => c.ignoreDirs != {}
    case IgnoredFiles => c.ignoreFiles != {}
    case IncludedExtensions => c.includeExts != {}
    case ExcludedExtensions => c.excludeExts != {}
    case MaxFileSize => true
  }

  /** The settings, of those given, that get a line. */
  function Written(c: Config, settings: seq<Setting>): seq<Setting>
  {
    if settings == [] then []
    else Written(c, settings[..|settings| - 1]) +
         (if Truthy(c, settings[|settings| - 1]) then [settings[|settings| - 1]] else [])
  }

  lemma {:induction false} WrittenMembers(c: Config, settings: seq<Setting>)
    ensures forall s :: s in Written(c, settings) <==> s in settings && Truthy(c, s)
    decreases |settings|
  {
    if settings != [] {
      var init := settings[..|settings| - 1];
      WrittenMembers(c, init);
      assert settings == init + [settings[|settings| - 1]];
    }
  }

  lemma AllSettingsListed()
    ensures forall s :: s in SettingOrder
  {
    forall s ensures s in SettingOrder {
      match s
      case IgnoredDirectories => assert SettingOrder[0] == s;
      case IgnoredFiles => assert SettingOrder[1] == s;
      case IncludedExtensions => assert SettingOrder[2] == s;
      case ExcludedExtensions => assert SettingOrder[3] == s;
      case MaxFileSize => assert SettingOrder[4] == s;
    }
  }

  /**
   * The settings named in the configuration section: exactly the truthy
   * ones, so the size limit always and each set only when it is not empty;
   * the size limit comes last.
   */
  function ConfigKeys(c: Config): (keys: seq<Setting>)
    ensures forall s :: s in keys <==> Truthy(c, s)
    ensures |keys| > 0 && keys[|keys| - 1] == MaxFileSize
  {
    WrittenMembers(c, SettingOrder);
    AllSettingsListed();
    Written(c, SettingOrder)
  }

  /** The loop over `config_items`: a line for each truthy setting, in order. */
  method WriteConfiguration(c: Config) returns (keys: seq<Setting>)
    ensures keys == ConfigKeys(c)
  {
    keys := [];
    for i := 0 to |SettingOrder|
      invariant keys == Written(c, SettingOrder[..i])
    {
      assert SettingOrder[..i + 1][..i] == SettingOrder[..i];
      if Truthy(c, SettingOrder[i]) {
        keys := keys + [SettingOrder[i]];
      }
    }
    assert SettingOrder[..|SettingOrder|] == SettingOrder;
  }

  /** What follows the configuration section. */
  function Report(c: Config, root: Tree): string
  {
    var items := Collect(c, root, []);
    "\n## Directory Structure\n" + Structure(items) + "\n## File Contents\n" + Sections(FilesOnly(items))
  }

  /**
   * `generate`: `canWrite` says whether the output file could be created;
   * when it could not, the exception is caught and False is returned.
   * Otherwise the result is True, with the settings listed and the report
   * written.
   */
  method Generate(c: Config, root: Tree, canWrite: bool) returns (ok: bool, keys: seq<Setting>, text: string)
    ensures ok <==> canWrite
    ensures ok ==> keys == ConfigKeys(c) && text == Report(c, root)
    ensures !ok ==> keys == [] && text == []
  {
    if !canWrite {
      return false, [], [];
    }
    keys := WriteConfiguration(c);
    text := "\n## Directory Structure\n";
    var items := CollectItems(c, root);
    var structure := WriteStructure(items);
    text := text + structure + "\n## File Contents\n";
    var contents := WriteContents(items);
    text := text + contents;
    ok := true;
  }

  /**
   * The report's first structure line is the walked directory itself at
   * level 0, whatever its name: `should_include_dir` is only asked about
   * subdirectories.
   */
  lemma RootListedFirst(c: Config, root: Tree)
    requires root.Dir?
    ensures Collect(c, root, [])[0] == Item(DirKind, root.name, [], 0, None)
    ensures StartsWith(Structure(Collect(c, root, [])), root.name + "/\n")
  {
    var items := Collect(c, root, []);
    assert StructureLine(items[0]) == root.name + "/\n";
  }

  /** Every file item, and nothing else, gets a section; sections follow the collection order. */
  lemma SectionsFollowItems(a: seq<Item>, b: seq<Item>)
    ensures forall it :: it in FilesOnly(a + b) <==> (it in a || it in b) && it.kind == FileKind
    ensures Sections(FilesOnly(a + b)) == Sections(FilesOnly(a)) + Sections(FilesOnly(b))
  {
    FilesOnlyAppend(a, b);
    SectionsAppend(FilesOnly(a), FilesOnly(b));
  }

  lemma {:induction false} SectionsAppend(a: seq<Item>, b: seq<Item>)
    ensures Sections(a + b) == Sections(a) + Sections(b)
    decreases |a|
  {
    if a == [] {
      assert a + b == b;
    } else {
      assert (a + b)[1..] == a[1..] + b;
      SectionsAppend(a[1..], b);
    }
  }

}
