/**
 * `create_zip` (server.py, and server2.py with one difference): build a ZIP
 * archive of a directory next to it, through a temporary file that is moved
 * into place. The file system is a map from paths (sequences of components)
 * to nodes; an archive records, for each entry name, the path of the file it
 * was copied from. The ZIP byte format is not modelled.
 */
module Archive {
  import opened Wrappers

  type Path = seq<string>

  datatype Content =
    | Bytes(data: seq<int>)
    | Zip(members: map<Path, Path>)

  datatype Node = DirNode | FileNode(content: Content)

  /** Where the exception, if any, is raised. */
  datatype Fault =
    | NoFault
    | BeforeTemp      // while computing the temporary path (before `temp_zip_path` is bound)
    | WhileWriting    // opening or writing the temporary archive
    | WhileMoving     // in `shutil.move`

  /** What server2.py's `create_zip` does: return a flag, or let an exception escape. */
  datatype Outcome = Returned(ok: bool) | Raised

  predicate Under(dir: Path, p: Path)
  {
    |dir| < |p| && p[..|dir|] == dir
  }

  /** The regular files `rglob('*')` finds under `dir`. */
  function FilesUnder(nodes: map<Path, Node>, dir: Path): set<Path>
  {
    set p | p in nodes && nodes[p].FileNode? && Under(dir, p)
  }

  /** One entry per file of `files`, named by its path relative to `dir`. */
  function Entries(files: set<Path>, dir: Path): map<Path, Path>
  {
    RelativeInjective(dir);
    map p | p in files && Under(dir, p) :: p[|dir|..] := p
  }

  /** Two paths under the same directory with the same relative path are equal. */
  lemma RelativeInjective(dir: Path)
    ensures forall p, q :: Under(dir, p) && Under(dir, q) && p[|dir|..] == q[|dir|..] ==> p == q
  {
    forall p, q | Under(dir, p) && Under(dir, q) && p[|dir|..] == q[|dir|..] ensures p == q {
      assert p == p[..|dir|] + p[|dir|..];
      assert q == q[..|dir|] + q[|dir|..];
    }
  }

  /** The archive `create_zip` writes for `dir`. */
  function ArchiveOf(nodes: map<Path, Node>, dir: Path): map<Path, Path>
  {
    Entries(FilesUnder(nodes, dir), dir)
  }

  /**
   * The archive holds exactly one entry per regular file under the
   * directory; each entry's name is that file's path relative to the
   * directory and is never empty.
   */
  lemma ArchiveOfSpec(nodes: map<Path, Node>, dir: Path)
    ensures forall a :: a in ArchiveOf(nodes, dir) ==>
              a != [] && ArchiveOf(nodes, dir)[a] == dir + a &&
              dir + a in nodes && nodes[dir + a].FileNode?
    ensures forall p :: p in nodes && nodes[p].FileNode? && Under(dir, p) ==>
              p[|dir|..] in ArchiveOf(nodes, dir) && ArchiveOf(nodes, dir)[p[|dir|..]] == p
  {
    var m := ArchiveOf(nodes, dir);
    forall a | a in m
      ensures a != [] && m[a] == dir + a && dir + a in nodes && nodes[dir + a].FileNode?
    {
      var p :| p in FilesUnder(nodes, dir) && p[|dir|..] == a;
      assert p == p[..|dir|] + p[|dir|..];
    }
  }

  lemma EntriesAdd(done: set<Path>, dir: Path, p: Path)
    requires Under(dir, p) && p !in done
    ensures Entries(done + {p}, dir) == Entries(done, dir)[p[|dir|..] := p]
  {
    var l, r := Entries(done + {p}, dir), Entries(done, dir)[p[|dir|..] := p];
    RelativeInjective(dir);
    forall a | a in l ensures a in r && l[a] == r[a] {
      var q :| q in done + {p} && Under(dir, q) && q[|dir|..] == a;
    }
    assert l.Keys == r.Keys;
  }

  lemma EntriesSkip(done: set<Path>, dir: Path, p: Path)
    requires !Under(dir, p)
    ensures Entries(done + {p}, dir) == Entries(done, dir)
  {
  }

  lemma UpdateTwice<K, V>(m: map<K, V>, k: K, v: V, w: V)
    ensures m[k := v][k := w] == m[k := w]
  {
  }

  lemma UpdateThenRemove<K, V>(m: map<K, V>, k: K, v: V)
    ensures m[k := v] - {k} == m - {k}
  {
  }

  /** `zip_path.with_suffix(zip_path.suffix + ".tmp_<pid>")`: the target's name with `.tmp_<pid>` appended. */
  function TempPath(target: Path, pid: string): (r: Path)
    requires |target| > 0
    ensures |r| == |target| && r[..|r| - 1] == target[..|target| - 1]
    ensures r != target
  {
    var name := target[|target| - 1];
    var r := target[..|target| - 1] + [name + ".tmp_" + pid];
    assert |r[|r| - 1]| > |name|;
    r
  }

  /**
   * The tree as the scan for files sees it: `ZipFile(p, 'w')` has already
   * created the empty archive at `p` before the first file is looked for.
   */
  function WithEmptyArchive(nodes: map<Path, Node>, p: Path): (r: map<Path, Node>)
    ensures p in r && r[p].FileNode?
  {
    nodes[p := FileNode(Zip(map[]))]
  }

  /** An archive created outside the directory does not change what is archived. */
  lemma ScanOutside(nodes: map<Path, Node>, dir: Path, p: Path)
    requires !Under(dir, p)
    ensures ArchiveOf(WithEmptyArchive(nodes, p), dir) == ArchiveOf(nodes, dir)
  {
    assert FilesUnder(WithEmptyArchive(nodes, p), dir) == FilesUnder(nodes, dir);
  }

  /**
   * An archive created inside the directory is found by the scan: the
   * archive gets an entry for its own file.
   */
  lemma ScanInside(nodes: map<Path, Node>, dir: Path, p: Path)
    requires Under(dir, p)
    ensures p[|dir|..] in ArchiveOf(WithEmptyArchive(nodes, p), dir)
    ensures ArchiveOf(WithEmptyArchive(nodes, p), dir)[p[|dir|..]] == p
  {
    ArchiveOfSpec(WithEmptyArchive(nodes, p), dir);
  }

  /**
   * `GET /sub/.zip`: the path up to `.zip` translates to the directory
   * itself, so the target `.zip` lies inside it, and so does the temporary
   * archive `.zip.tmp_<pid>`, which is then archived into itself.
   */
  lemma TargetInsideDirectory(nodes: map<Path, Node>, dir: Path, pid: string)
    ensures TempPath(dir + [".zip"], pid) == dir + [".zip.tmp_" + pid]
    ensures [".zip.tmp_" + pid] in ArchiveOf(WithEmptyArchive(nodes, TempPath(dir + [".zip"], pid)), dir)
  {
    var target := dir + [".zip"];
    var temp := TempPath(target, pid);
    assert target[..|target| - 1] == dir && target[|target| - 1] == ".zip";
    assert ".zip" + ".tmp_" == ".zip.tmp_";
    assert temp == dir + [".zip.tmp_" + pid];
    assert temp[..|dir|] == dir && temp[|dir|..] == [".zip.tmp_" + pid];
    ScanInside(nodes, dir, temp);
  }

  class FileSystem {
    var nodes: map<Path, Node>

    constructor(initial: map<Path, Node>)
      ensures nodes == initial
    {
      nodes := initial;
    }

    /** Write node `n` at `p`, replacing whatever was there. */
    method Put(p: Path, n: Node)
      modifies this
      ensures nodes == old(nodes)[p := n]
    {
      nodes := nodes[p := n];
    }

    /** Remove `p` if it exists: the cleanup `temp_zip_path.unlink()` after `exists()`. */
    method Unlink(p: Path)
      modifies this
      ensures nodes == old(nodes) - {p}
    {
      nodes := nodes - {p};
    }

    /**
     * The loop in the `with zipfile.ZipFile(temp_zip_path, 'w', ...)` block:
     * the empty archive at `temp` receives each file of `files` under its
     * path relative to `dir`.
     */
    method WriteArchive(files: set<Path>, dir: Path, temp: Path)
      requires temp in nodes && nodes[temp] == FileNode(Zip(map[]))
      modifies this
      ensures nodes == old(nodes)[temp := FileNode(Zip(Entries(files, dir)))]
    {
      ghost var before := nodes;
      var members: map<Path, Path> := map[];
      var todo := files;
      while todo != {}
        invariant todo <= files
        invariant members == Entries(files - todo, dir)
        invariant nodes == before[temp := FileNode(Zip(members))]
        decreases |todo|
      {
        var p :| p in todo;
        if Under(dir, p) {
          EntriesAdd(files - todo, dir, p);
          members := members[p[|dir|..] := p];
        } else {
          EntriesSkip(files - todo, dir, p);
        }
        assert (files - todo) + {p} == files - (todo - {p});
        UpdateTwice(before, temp, nodes[temp], FileNode(Zip(members)));
        nodes := nodes[temp := FileNode(Zip(members))];
        todo := todo - {p};
      }
      assert files - todo == files;
    }

    /**
     * The body of the `try` block once the temporary path is known: create
     * the empty archive at `temp`, write every file `rglob` then finds under
     * `dir` into it, and move it to `target`. On `WhileWriting` or
     * `WhileMoving` the temporary archive is left in place for the caller to
     * clean up.
     */
    method WriteAndMove(dir: Path, target: Path, temp: Path, fault: Fault) returns (ok: bool)
      requires temp != target && target !in nodes
      modifies this
      ensures ok <==> fault !in {WhileWriting, WhileMoving}
      ensures ok ==> nodes == (old(nodes) - {temp})[target := FileNode(Zip(ArchiveOf(WithEmptyArchive(old(nodes), temp), dir)))]
      ensures !ok ==> temp in nodes && nodes - {temp} == old(nodes) - {temp}
    {
      ghost var before := nodes;
      nodes := nodes[temp := FileNode(Zip(map[]))];
      var files := FilesUnder(nodes, dir);
      WriteArchive(files, dir, temp);
      UpdateTwice(before, temp, FileNode(Zip(map[])), nodes[temp]);
      if fault == WhileWriting || fault == WhileMoving {
        UpdateThenRemove(before, temp, nodes[temp]);
        return false;
      }
      UpdateThenRemove(before, temp, nodes[temp]);
      nodes := (nodes - {temp})[target := nodes[temp]];
      return true;
    }

    /** server.py's `create_zip(directory, zip_name)`. */
    method CreateZip(dir: Path, target: Path, pid: string, fault: Fault) returns (ok: bool)
      requires |target| > 0
      modifies this
      ensures target in old(nodes) ==> ok && nodes == old(nodes)
      ensures target !in old(nodes) && fault == NoFault ==>
                ok && nodes == (old(nodes) - {TempPath(target, pid)})[target := FileNode(Zip(ArchiveOf(WithEmptyArchive(old(nodes), TempPath(target, pid)), dir)))]
      ensures target !in old(nodes) && fault == BeforeTemp ==> !ok && nodes == old(nodes)
      ensures target !in old(nodes) && fault in {WhileWriting, WhileMoving} ==>
                !ok && nodes == old(nodes) - {TempPath(target, pid)}
    {
      if target in nodes {
        return true;
      }
      if fault == BeforeTemp {
        // `'temp_zip_path' in locals()` is false: nothing to clean up
        return false;
      }
      var temp := TempPath(target, pid);
      ok := WriteAndMove(dir, target, temp, fault);
      if !ok {
        Unlink(temp);
      }
    }

    /** server2.py's `create_zip`: the cleanup reads the unbound `temp_zip_path`, so an early failure escapes. */
    method CreateZip2(dir: Path, target: Path, pid: string, fault: Fault) returns (outcome: Outcome)
      requires |target| > 0
      modifies this
      ensures target in old(nodes) ==> outcome == Returned(true) && nodes == old(nodes)
      ensures target !in old(nodes) && fault == NoFault ==>
                outcome == Returned(true) &&
                nodes == (old(nodes) - {TempPath(target, pid)})[target := FileNode(Zip(ArchiveOf(WithEmptyArchive(old(nodes), TempPath(target, pid)), dir)))]
      ensures target !in old(nodes) && fault == BeforeTemp ==> outcome == Raised && nodes == old(nodes)
      ensures target !in old(nodes) && fault in {WhileWriting, WhileMoving} ==>
                outcome == Returned(false) && nodes == old(nodes) - {TempPath(target, pid)}
    {
      if target in nodes {
        return Returned(true);
      }
      if fault == BeforeTemp {
        return Raised;
      }
      var temp := TempPath(target, pid);
      var ok := WriteAndMove(dir, target, temp, fault);
      if !ok {
        Unlink(temp);
      }
      outcome := Returned(ok);
    }
  }
}
