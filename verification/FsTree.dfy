/**
 * An abstract directory tree, used for everything that walks a directory:
 * the size sums of the listing pages (`rglob('*')` in server.py and
 * server2.py, `os.walk` in server1.py) and the tree report of
 * print_dir_info/print_file_tree.py. A file has a size and, when it decodes
 * as UTF-8, a text.
 */
module FsTree {
  import opened Wrappers

  datatype Tree =
    | File(name: string, size: nat, text: Option<string>)
    | Dir(name: string, children: seq<Tree>)

  /** The reference total: the sizes of all regular files in the tree. */
  function TreeSize(t: Tree): nat
    decreases t
  {
    match t
    case File(_, size, _) => size
    case Dir(_, children) => ForestSize(children)
  }

  function ForestSize(ts: seq<Tree>): nat
    decreases ts
  {
    if ts == [] then 0 else TreeSize(ts[0]) + ForestSize(ts[1..])
  }

  // ---------------------------------------------------------------------------
  // `rglob('*')`: every entry strictly below a directory, files and directories
  // ---------------------------------------------------------------------------

  function Descendants(t: Tree): seq<Tree>
    decreases t
  {
    match t
    case File(_, _, _) => []
    case Dir(_, children) => DescendantsOf(children)
  }

  function DescendantsOf(ts: seq<Tree>): seq<Tree>
    decreases ts
  {
    if ts == [] then [] else [ts[0]] + Descendants(ts[0]) + DescendantsOf(ts[1..])
  }

  /** `sum(e.size for e in entries if e.is_file())` */
  function FileBytes(entries: seq<Tree>): nat
  {
    if entries == [] then 0
    else (if entries[0].File? then entries[0].size else 0) + FileBytes(entries[1..])
  }

  lemma {:induction false} FileBytesAppend(a: seq<Tree>, b: seq<Tree>)
    ensures FileBytes(a + b) == FileBytes(a) + FileBytes(b)
    decreases |a|
  {
    if a == [] {
      assert a + b == b;
    } else {
      assert (a + b)[1..] == a[1..] + b;
      FileBytesAppend(a[1..], b);
    }
  }

  /** Adding up the files that `rglob` yields gives the tree's total. */
  lemma {:induction false} DescendantsSize(t: Tree)
    requires t.Dir?
    ensures FileBytes(Descendants(t)) == TreeSize(t)
    decreases t
  {
    DescendantsOfSize(t.children);
  }

  lemma {:induction false} DescendantsOfSize(ts: seq<Tree>)
    ensures FileBytes(DescendantsOf(ts)) == ForestSize(ts)
    decreases ts
  {
    if ts != [] {
      if ts[0].Dir? {
        DescendantsSize(ts[0]);
      }
      DescendantsOfSize(ts[1..]);
      FileBytesAppend([ts[0]] + Descendants(ts[0]), DescendantsOf(ts[1..]));
      FileBytesAppend([ts[0]], Descendants(ts[0]));
      if ts[0].Dir? {
        assert FileBytes([ts[0]]) == 0;
      } else {
        assert Descendants(ts[0]) == [];
      }
    }
  }

  /** A walk cut short never counts more than the whole walk. */
  lemma PrefixBytes(entries: seq<Tree>, k: nat)
    requires k <= |entries|
    ensures FileBytes(entries[..k]) <= FileBytes(entries)
  {
    FileBytesAppend(entries[..k], entries[k..]);
    assert entries[..k] + entries[k..] == entries;
  }

  // ---------------------------------------------------------------------------
  // `os.walk` (top-down): every directory of the tree, parents before children
  // ---------------------------------------------------------------------------

  /** The directories `os.walk(t)` visits, in visiting order. */
  function Walk(t: Tree): seq<Tree>
    decreases t
  {
    match t
    case File(_, _, _) => []
    case Dir(_, children) => [t] + WalkOf(children)
  }

  function WalkOf(ts: seq<Tree>): seq<Tree>
    decreases ts
  {
    if ts == [] then [] else Walk(ts[0]) + WalkOf(ts[1..])
  }

  /** The files listed directly in one directory (the `filenames` of a walk step). */
  function FilesIn(ts: seq<Tree>): seq<Tree>
  {
    if ts == [] then [] else (if ts[0].File? then [ts[0]] else []) + FilesIn(ts[1..])
  }

  /** `sum(getsize(f) for (_, _, files) in walk for f in files)` over a list of walk steps. */
  function WalkBytes(steps: seq<Tree>): nat
  {
    if steps == [] then 0
    else (if steps[0].Dir? then FileBytes(FilesIn(steps[0].children)) else 0) + WalkBytes(steps[1..])
  }

  lemma {:induction false} WalkBytesAppend(a: seq<Tree>, b: seq<Tree>)
    ensures WalkBytes(a + b) == WalkBytes(a) + WalkBytes(b)
    decreases |a|
  {
    if a == [] {
      assert a + b == b;
    } else {
      assert (a + b)[1..] == a[1..] + b;
      WalkBytesAppend(a[1..], b);
    }
  }

  /** The files directly in a directory contribute their sizes; the subdirectories' files are counted by their own steps. */
  lemma {:induction false} FilesInSplit(ts: seq<Tree>)
    ensures FileBytes(FilesIn(ts)) + WalkBytes(WalkOf(ts)) == ForestSize(ts)
    decreases ts
  {
    if ts != [] {
      FilesInSplit(ts[1..]);
      WalkBytesAppend(Walk(ts[0]), WalkOf(ts[1..]));
      FileBytesAppend(if ts[0].File? then [ts[0]] else [], FilesIn(ts[1..]));
      match ts[0]
      case File(_, _, _) =>
      case Dir(_, children) => WalkSize(ts[0]);
    }
  }

  /** Adding up the files of every walk step gives the tree's total. */
  lemma {:induction false} WalkSize(t: Tree)
    requires t.Dir?
    ensures WalkBytes(Walk(t)) == TreeSize(t)
    decreases t
  {
    FilesInSplit(t.children);
    WalkBytesAppend([t], WalkOf(t.children));
  }
}
