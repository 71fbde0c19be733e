/** The TypeScript backend of src/backends/typescript/backend.rs: the
    directory-parsing driver and the capture-index classification. */
module Backend {
  import opened Discovery

  /** A tree-sitter syntax tree; the model never looks inside one. */
  type SyntaxTree

  /** parse_directory always discovers with this single extension. */
  const TsExtensions: seq<string> := ["ts"]

  /** The map built by parse_directory's loop over `paths`: `read` stands for
      fs::read_to_string and `parse` for the grammar-loaded parser. */
  function ParseAll(paths: seq<Path>, read: Path -> Option<string>, parse: string -> SyntaxTree)
    : (m: map<Path, SyntaxTree>)
    ensures m.Keys == set p | p in paths && read(p).Some?
    ensures forall p :: p in m ==> read(p).Some? && m[p] == parse(read(p).value)
  {
    if paths == [] then map[]
    else
      var p := paths[|paths| - 1];
      var m := ParseAll(paths[..|paths| - 1], read, parse);
      match read(p)
      case Some(text) => m[p := parse(text)]
      case None => m
  }

  /** The parsed map of a whole directory whose metadata is `fs`. */
  function DirectoryParseMap(fs: Node, directory: Path, read: Path -> Option<string>,
                             parse: string -> SyntaxTree): (m: map<Path, SyntaxTree>)
  {
    ParseAll(Find(directory, fs, TsExtensions), read, parse)
  }

  class TypeScriptBackend {
    /** None until a directory has been parsed. */
    var parsed: Option<map<Path, SyntaxTree>>

    /** TypeScriptBackend::new. */
    constructor ()
      ensures parsed == None
    {
      parsed := None;
    }

    /** parse_directory: discover the ".ts" files under `directory`, read and
        parse each one, and replace `parsed` by the fresh map. */
    method ParseDirectory(fs: Node, directory: Path, read: Path -> Option<string>,
                          parse: string -> SyntaxTree)
      returns (r: Option<map<Path, SyntaxTree>>)
      modifies this
      ensures parsed == Some(DirectoryParseMap(fs, directory, read, parse))
      ensures r == parsed
    {
      var paths := FindByExtensionsInDir(directory, fs, TsExtensions);
      var m: map<Path, SyntaxTree> := map[];
      var i := 0;
      while i < |paths|
        invariant 0 <= i <= |paths|
        invariant m == ParseAll(paths[..i], read, parse)
      {
        assert paths[..i + 1][..i] == paths[..i];
        var path := paths[i];
        match read(path) {
          case Some(text) =>
            var tree := parse(text);
            m := m[path := tree];
          case None =>
        }
        i := i + 1;
      }
      assert paths[..i] == paths;
      parsed := Some(m);
      r := parsed;
    }
  }

  /** The keys of a parsed directory are exactly the readable ".ts" files
      reachable from it through directories not named node_modules. */
  lemma ParsedKeys(fs: Node, directory: Path, read: Path -> Option<string>,
                   parse: string -> SyntaxTree, rel: Path)
    ensures directory + rel in DirectoryParseMap(fs, directory, read, parse)
        <==> ReachesFile(fs, rel) && Matches(rel[|rel| - 1], TsExtensions) && read(directory + rel).Some?
  {
    var p := directory + rel;
    if p in DirectoryParseMap(fs, directory, read, parse) {
      FindSound(directory, fs, TsExtensions, p);
      assert p[|directory|..] == rel;
    }
    if ReachesFile(fs, rel) && Matches(rel[|rel| - 1], TsExtensions) && read(p).Some? {
      FindComplete(directory, fs, TsExtensions, rel);
    }
  }

  /** Every key of a parsed directory lies below it and ends in ".ts". */
  lemma ParsedKeysAreTsFiles(fs: Node, directory: Path, read: Path -> Option<string>,
                             parse: string -> SyntaxTree, p: Path)
    requires p in DirectoryParseMap(fs, directory, read, parse)
    ensures |p| > |directory| && p[..|directory|] == directory
    ensures Extension(p[|p| - 1]) == Some("ts")
  {
    FindSound(directory, fs, TsExtensions, p);
  }

  // ---------------------------------------------------------------------
  // Capture classification (the match inside find_imports_in_tree)

  /** The indices query.capture_index_for_name reports for the six capture
      names of the import query. */
  datatype CaptureIndices = CaptureIndices(
    namedImport: nat, namespaceImport: nat, source: nat,
    importStatement: nat, alias: nat, importWithAlias: nat)

  /** The six indices, in the order the match arms test them. */
  function Arms(ids: CaptureIndices): (s: seq<nat>)
    ensures |s| == 6
  {
    [ids.namedImport, ids.namespaceImport, ids.source, ids.importStatement, ids.alias, ids.importWithAlias]
  }

  /** The names the match arms return, in the same order. */
  const CaptureNames: seq<string> :=
    ["named_import", "namespace_import", "source", "import", "alias", "import_with_alias"]

  /** The six names and "Unknown" are pairwise different. */
  lemma CaptureNamesDistinct()
    ensures forall i, j :: 0 <= i < j < 6 ==> CaptureNames[i] != CaptureNames[j]
    ensures "Unknown" !in CaptureNames
  {
  }

  /** The capture-name `match`: the first arm whose index equals `index`
      wins; no arm matching gives "Unknown". */
  function CaptureName(index: nat, ids: CaptureIndices): (name: string)
    ensures name == "Unknown" <==> index !in Arms(ids)
    ensures forall k :: 0 <= k < 6 ==>
              (name == CaptureNames[k] <==>
                 index == Arms(ids)[k] && forall j :: 0 <= j < k ==> index != Arms(ids)[j])
  {
    CaptureNamesDistinct();
    var a := Arms(ids);
    assert a[0] == ids.namedImport && a[1] == ids.namespaceImport && a[2] == ids.source;
    assert a[3] == ids.importStatement && a[4] == ids.alias;
    if index == ids.namedImport then "named_import"
    else if index == ids.namespaceImport then "namespace_import"
    else if index == ids.source then "source"
    else if index == ids.importStatement then "import"
    else if index == ids.alias then "alias"
    else if index == ids.importWithAlias then "import_with_alias"
    else "Unknown"
  }

  /** query.capture_index_for_name for the six names of the import query. */
  function CaptureIndexForName(ids: CaptureIndices, name: string): (r: Option<nat>)
    ensures r.Some? <==> name in CaptureNames
  {
    if name == "named_import" then Some(ids.namedImport)
    else if name == "namespace_import" then Some(ids.namespaceImport)
    else if name == "source" then Some(ids.source)
    else if name == "import" then Some(ids.importStatement)
    else if name == "alias" then Some(ids.alias)
    else if name == "import_with_alias" then Some(ids.importWithAlias)
    else None
  }

  /** Distinct capture names get distinct indices. */
  predicate Distinct(ids: CaptureIndices) {
    forall i, j :: 0 <= i < j < 6 ==> Arms(ids)[i] != Arms(ids)[j]
  }

  /** With distinct indices, classifying the index of a name gives the name
      back, and every index classified as known is the index of its name. */
  lemma ClassificationRoundTrip(ids: CaptureIndices, name: string, index: nat)
    requires Distinct(ids)
    ensures name in CaptureNames ==> CaptureName(CaptureIndexForName(ids, name).value, ids) == name
    ensures CaptureName(index, ids) != "Unknown" ==>
              CaptureIndexForName(ids, CaptureName(index, ids)) == Some(index)
  {
    var a := Arms(ids);
    assert a[0] == ids.namedImport && a[1] == ids.namespaceImport && a[2] == ids.source;
    assert a[3] == ids.importStatement && a[4] == ids.alias && a[5] == ids.importWithAlias;
  }

  /** When two arms share an index, the later arm's name is never returned
      for it: the earlier arm wins. */
  lemma FirstArmWins(ids: CaptureIndices, j: nat, k: nat)
    requires j < k < 6 && Arms(ids)[j] == Arms(ids)[k]
    ensures CaptureName(Arms(ids)[k], ids) != CaptureNames[k]
  {
  }
}
