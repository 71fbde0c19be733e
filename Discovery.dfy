/** The filtered, depth-first file discovery walk of src/utils.rs
    (find_by_extensions_in_dir) over a finite model of the filesystem. */
module Discovery {

  datatype Option<T> = None | Some(value: T)

  /** A path, as the sequence of its components: the root directory's
      components followed by one file name per level descended. */
  type Path = seq<string>

  /** What fs::metadata reports for a path: an error, something that is
      not a directory, or a directory together with what fs::read_dir lists. */
  datatype Node =
    | NoMetadata
    | File
    | Directory(entries: seq<Entry>)

  /** One item yielded by fs::read_dir: an error or a named entry. */
  datatype Entry =
    | EntryError
    | Entry(name: string, node: Node)

  /** The only directory name the walk never descends into. */
  const NodeModules: string := "node_modules"

  // ---------------------------------------------------------------------
  // Path::extension

  /** Index of the last '.' of `s`, if any. */
  function LastDot(s: string): (r: Option<nat>)
    ensures r.Some? ==> r.value < |s| && s[r.value] == '.'
    ensures r.Some? ==> forall j :: r.value < j < |s| ==> s[j] != '.'
    ensures r.None? ==> forall j :: 0 <= j < |s| ==> s[j] != '.'
  {
    if |s| == 0 then None
    else if s[|s| - 1] == '.' then Some(|s| - 1)
    else LastDot(s[..|s| - 1])
  }

  /** Rust's `Path::extension` applied to a file name: the text after the
      last dot, unless the name is "..", has no dot, or its only candidate
      dot is its first character (a hidden file such as ".ts"). */
  function Extension(name: string): (r: Option<string>)
    ensures r.None? <==> name == ".." || forall j :: 0 < j < |name| ==> name[j] != '.'
    ensures r.Some? ==> (|r.value| < |name| - 1
                         && name[|name| - |r.value| - 1] == '.'
                         && name[|name| - |r.value|..] == r.value
                         && forall j :: 0 <= j < |r.value| ==> r.value[j] != '.')
  {
    if name == ".." then None
    else match LastDot(name)
      case None => None
      case Some(i) => if i == 0 then None else Some(name[i + 1..])
  }

  /** The test of src/utils.rs line 19-20: the name has an extension and it is
      exactly (case-sensitively) one of `exts`. */
  predicate Matches(name: string, exts: seq<string>) {
    Extension(name).Some? && Extension(name).value in exts
  }

  // ---------------------------------------------------------------------
  // The walk, as functions

  /** What the walk returns for the path `dir` whose metadata is `node`. */
  function Find(dir: Path, node: Node, exts: seq<string>): (r: seq<Path>)
    decreases node, 2
  {
    match node
    case Directory(es) => FindInEntries(dir, es, exts)
    case _ => []
  }

  /** The paths pushed while looping over `es`, in order. */
  function FindInEntries(dir: Path, es: seq<Entry>, exts: seq<string>): (r: seq<Path>)
    decreases es, 1
  {
    if es == [] then []
    else FindInEntries(dir, es[..|es| - 1], exts) + FindInEntry(dir, es[|es| - 1], exts)
  }

  /** The paths pushed for one entry of the directory `dir`. */
  function FindInEntry(dir: Path, e: Entry, exts: seq<string>): (r: seq<Path>)
    decreases e, 0
  {
    match e
    case EntryError => []
    case Entry(name, child) =>
      match child
      case NoMetadata => []
      case Directory(_) =>
        if name != NodeModules then Find(dir + [name], child, exts)
        else Collect(dir, name, exts)
      case File => Collect(dir, name, exts)
  }

  /** The `else if let Some(ext)` branch: the entry's own path if it matches. */
  function Collect(dir: Path, name: string, exts: seq<string>): (r: seq<Path>) {
    if Matches(name, exts) then [dir + [name]] else []
  }

  // ---------------------------------------------------------------------
  // The walk, as the source writes it

  /** find_by_extensions_in_dir: `node` is what fs::metadata reports for `dir`. */
  method FindByExtensionsInDir(dir: Path, node: Node, exts: seq<string>) returns (paths: seq<Path>)
    ensures paths == Find(dir, node, exts)
    ensures !node.Directory? ==> paths == []
    decreases node
  {
    paths := [];
    match node {
      case Directory(es) =>
        var i := 0;
        while i < |es|
          invariant 0 <= i <= |es|
          invariant paths == FindInEntries(dir, es[..i], exts)
        {
          assert es[..i + 1][..i] == es[..i];
          var entry := es[i];
          match entry {
            case EntryError =>
            case Entry(name, child) =>
              if child.Directory? && name != NodeModules {
                assert entry in es;
                var nextDepth := FindByExtensionsInDir(dir + [name], child, exts);
                var j := 0;
                while j < |nextDepth|
                  invariant 0 <= j <= |nextDepth|
                  invariant paths == FindInEntries(dir, es[..i], exts) + nextDepth[..j]
                {
                  assert nextDepth[..j + 1] == nextDepth[..j] + [nextDepth[j]];
                  paths := paths + [nextDepth[j]];
                  j := j + 1;
                }
                assert nextDepth[..j] == nextDepth;
              } else if child != NoMetadata {
                match Extension(name) {
                  case Some(ext) =>
                    if ext in exts {
                      paths := paths + [dir + [name]];
                    }
                  case None =>
                }
              }
          }
          i := i + 1;
        }
        assert es[..i] == es;
      case _ =>
    }
  }

  // ---------------------------------------------------------------------
  // An independent description of what should be found

  /** `rel` leads from the listing `es` to an entry whose metadata is `leaf`,
      passing only through directories not named node_modules. */
  ghost predicate ReachesIn(es: seq<Entry>, rel: Path, leaf: Node)
    decreases rel
  {
    |rel| > 0 &&
    exists i :: 0 <= i < |es| && es[i].Entry? && es[i].name == rel[0] &&
      if |rel| == 1 then es[i].node == leaf
      else es[i].node.Directory? && rel[0] != NodeModules &&
           ReachesIn(es[i].node.entries, rel[1..], leaf)
  }

  /** `rel`, relative to a directory whose metadata is `node`, names a file. */
  ghost predicate ReachesFile(node: Node, rel: Path) {
    node.Directory? && ReachesIn(node.entries, rel, File)
  }

  // ---------------------------------------------------------------------
  // Properties

  /** Concatenation: the entries of a listing contribute in listing order. */
  lemma {:induction false} FindInEntriesAppend(dir: Path, a: seq<Entry>, b: seq<Entry>, exts: seq<string>)
    ensures FindInEntries(dir, a + b, exts) == FindInEntries(dir, a, exts) + FindInEntries(dir, b, exts)
    decreases |b|
  {
    if b == [] {
      assert a + b == a;
    } else {
      var b' := b[..|b| - 1];
      assert (a + b)[..|a + b| - 1] == a + b';
      assert (a + b)[|a + b| - 1] == b[|b| - 1];
      FindInEntriesAppend(dir, a, b', exts);
    }
  }

  /** Depth-first order: a subdirectory's results sit contiguously at its
      position among its siblings. */
  lemma DepthFirstOrder(dir: Path, before: seq<Entry>, name: string, sub: seq<Entry>,
                        after: seq<Entry>, exts: seq<string>)
    requires name != NodeModules
    ensures Find(dir, Directory(before + [Entry(name, Directory(sub))] + after), exts)
         == FindInEntries(dir, before, exts)
          + Find(dir + [name], Directory(sub), exts)
          + FindInEntries(dir, after, exts)
  {
    var e := Entry(name, Directory(sub));
    FindInEntriesAppend(dir, before + [e], after, exts);
    FindInEntriesAppend(dir, before, [e], exts);
    assert FindInEntries(dir, [e], exts) == FindInEntry(dir, e, exts) by {
      assert [e][..0] == [];
    }
  }

  /** An entry error or an entry without metadata removes only itself:
      the siblings after it are still walked. */
  lemma BadEntrySkipped(dir: Path, before: seq<Entry>, bad: Entry, after: seq<Entry>, exts: seq<string>)
    requires bad == EntryError || (bad.Entry? && bad.node == NoMetadata)
    ensures FindInEntries(dir, before + [bad] + after, exts)
         == FindInEntries(dir, before + after, exts)
  {
    FindInEntriesAppend(dir, before + [bad], after, exts);
    FindInEntriesAppend(dir, before, [bad], exts);
    FindInEntriesAppend(dir, before, after, exts);
    assert FindInEntries(dir, [bad], exts) == FindInEntry(dir, bad, exts) by {
      assert [bad][..0] == [];
    }
  }

  /** A directory named node_modules never yields anything: it is not
      descended into, and the extension test then fails on its name. */
  lemma NodeModulesYieldsNothing(dir: Path, sub: seq<Entry>, exts: seq<string>)
    ensures FindInEntry(dir, Entry(NodeModules, Directory(sub)), exts) == []
  {
  }

  /** Soundness over a listing: each path found is `dir` followed by a
      relative path that reaches a file, through no node_modules directory,
      and whose name has one of the extensions. */
  lemma {:induction false} FindInEntriesSound(dir: Path, es: seq<Entry>, exts: seq<string>, p: Path)
    requires p in FindInEntries(dir, es, exts)
    ensures |p| > |dir| && p[..|dir|] == dir
    ensures ReachesIn(es, p[|dir|..], File)
    ensures Matches(p[|p| - 1], exts)
    decreases es
  {
    var n := |es| - 1;
    if p in FindInEntries(dir, es[..n], exts) {
      FindInEntriesSound(dir, es[..n], exts, p);
      var rel := p[|dir|..];
      var i :| 0 <= i < n && es[..n][i].Entry? && es[..n][i].name == rel[0] &&
        if |rel| == 1 then es[..n][i].node == File
        else es[..n][i].node.Directory? && rel[0] != NodeModules &&
             ReachesIn(es[..n][i].node.entries, rel[1..], File);
      assert es[i] == es[..n][i];
    } else {
      var e := es[n];
      assert p in FindInEntry(dir, e, exts);
      var name, child := e.name, e.node;
      if child.Directory? && name != NodeModules {
        var dir' := dir + [name];
        assert FindInEntry(dir, e, exts) == Find(dir', child, exts);
        assert Find(dir', child, exts) == FindInEntries(dir', child.entries, exts);
        FindInEntriesSound(dir', child.entries, exts, p);
        assert p[..|dir|] == p[..|dir'|][..|dir|];
        var rel := p[|dir|..];
        assert rel[0] == name && rel[1..] == p[|dir'|..];
        assert |rel| > 1;
      } else {
        assert p == dir + [name];
        if child.Directory? {
          NodeModulesYieldsNothing(dir, child.entries, exts);
          assert false;
        }
        assert p[|dir|..] == [name];
      }
    }
  }

  /** Soundness of the walk. */
  lemma FindSound(dir: Path, node: Node, exts: seq<string>, p: Path)
    requires p in Find(dir, node, exts)
    ensures |p| > |dir| && p[..|dir|] == dir
    ensures ReachesFile(node, p[|dir|..])
    ensures Matches(p[|p| - 1], exts)
  {
    FindInEntriesSound(dir, node.entries, exts, p);
  }

  /** Completeness over a listing: every file reached through non-node_modules
      directories whose name has one of the extensions is found. */
  lemma {:induction false} FindInEntriesComplete(dir: Path, es: seq<Entry>, exts: seq<string>, rel: Path)
    requires ReachesIn(es, rel, File)
    requires Matches(rel[|rel| - 1], exts)
    ensures dir + rel in FindInEntries(dir, es, exts)
    decreases rel
  {
    var i :| 0 <= i < |es| && es[i].Entry? && es[i].name == rel[0] &&
      if |rel| == 1 then es[i].node == File
      else es[i].node.Directory? && rel[0] != NodeModules &&
           ReachesIn(es[i].node.entries, rel[1..], File);
    var e := es[i];
    if |rel| == 1 {
      assert dir + rel == dir + [e.name];
      assert dir + rel in FindInEntry(dir, e, exts);
    } else {
      FindInEntriesComplete(dir + [rel[0]], e.node.entries, exts, rel[1..]);
      assert dir + [rel[0]] + rel[1..] == dir + rel;
      assert rel[1..][|rel[1..]| - 1] == rel[|rel| - 1];
      assert dir + rel in FindInEntry(dir, e, exts);
    }
    assert es == es[..i] + [e] + es[i + 1..];
    FindInEntriesAppend(dir, es[..i] + [e], es[i + 1..], exts);
    FindInEntriesAppend(dir, es[..i], [e], exts);
    assert FindInEntries(dir, [e], exts) == FindInEntry(dir, e, exts) by {
      assert [e][..0] == [];
    }
  }

  /** Completeness of the walk. */
  lemma FindComplete(dir: Path, node: Node, exts: seq<string>, rel: Path)
    requires ReachesFile(node, rel)
    requires Matches(rel[|rel| - 1], exts)
    ensures dir + rel in Find(dir, node, exts)
  {
    FindInEntriesComplete(dir, node.entries, exts, rel);
  }

  /** No reached entry lies below a directory named node_modules. */
  lemma {:induction false} ReachesAvoidsNodeModules(es: seq<Entry>, rel: Path, leaf: Node, k: nat)
    requires ReachesIn(es, rel, leaf)
    requires k < |rel| - 1
    ensures rel[k] != NodeModules
    decreases rel
  {
    var i :| 0 <= i < |es| && es[i].Entry? && es[i].name == rel[0] &&
      es[i].node.Directory? && rel[0] != NodeModules &&
      ReachesIn(es[i].node.entries, rel[1..], leaf);
    if k > 0 {
      ReachesAvoidsNodeModules(es[i].node.entries, rel[1..], leaf, k - 1);
    }
  }

  /** Exclusion at every depth: no found path has an ancestor below the
      root named node_modules. */
  lemma FindExcludesNodeModules(dir: Path, node: Node, exts: seq<string>, p: Path, k: nat)
    requires p in Find(dir, node, exts)
    requires |dir| <= k < |p| - 1
    ensures p[k] != NodeModules
  {
    FindSound(dir, node, exts, p);
    ReachesAvoidsNodeModules(node.entries, p[|dir|..], File, k - |dir|);
  }

  /** A directory is never itself collected, even when its name has a
      matching extension: everything its entry yields lies strictly below it. */
  lemma DirectoryNotCollected(dir: Path, name: string, sub: seq<Entry>, exts: seq<string>, p: Path)
    requires p in FindInEntry(dir, Entry(name, Directory(sub)), exts)
    ensures |p| > |dir| + 1 && p[..|dir| + 1] == dir + [name]
  {
    if name == NodeModules {
      NodeModulesYieldsNothing(dir, sub, exts);
    } else {
      FindSound(dir + [name], Directory(sub), exts, p);
    }
  }

  /** The ".ts" extension examples: only the final dot-segment counts,
      exactly and case-sensitively. */
  lemma TsExtensionExamples()
    ensures Matches("a.ts", ["ts"])
    ensures !Matches("a.tsx", ["ts"])
    ensures !Matches("a.ts.bak", ["ts"])
    ensures !Matches("a", ["ts"])
    ensures !Matches("a.TS", ["ts"])
    ensures !Matches(".ts", ["ts"])
  {
    assert LastDot("a.") == Some(1);
    assert LastDot("a.t") == Some(1);
    assert LastDot("a.ts") == Some(1);
    assert "a.tsx"[..4] == "a.ts";
    assert LastDot("a.tsx") == Some(1);
    assert LastDot("a.ts.") == Some(4);
    assert LastDot("a.ts.b") == Some(4);
    assert LastDot("a.ts.ba") == Some(4);
    assert "a.ts.bak"[..7] == "a.ts.ba";
    assert LastDot("a.ts.bak") == Some(4);
    assert LastDot("a.T") == Some(1);
    assert LastDot("a.TS") == Some(1);
    assert Extension("a.ts") == Some("ts");
    assert Extension("a.tsx") == Some("tsx");
    assert Extension("a.ts.bak") == Some("bak");
    assert Extension("a") == None;
    assert Extension("a.TS") == Some("TS");
    assert Extension(".ts") == None by { assert LastDot(".ts") == Some(0); }
  }
}
