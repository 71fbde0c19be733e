# code-analyser: file discovery and the TypeScript backend driver

This project models two pieces of the code-analyser tool in Dafny and proves
properties about them.

- **File discovery** (`src/utils.rs`, `find_by_extensions_in_dir`). The walk
  goes depth-first over a directory. It never descends into a directory named
  exactly `node_modules`. It collects every non-directory entry whose extension
  is exactly one of the requested extensions. An entry error is logged and
  skipped; an entry whose metadata cannot be read is skipped silently.
- **The TypeScript backend** (`src/backends/typescript/backend.rs`). The
  constructor starts with no parsed map. `parse_directory` discovers the `.ts`
  files, reads and parses each one, and replaces `parsed` with a fresh map from
  path to tree. The capture-index `match` in `find_imports_in_tree` turns a
  capture index into its capture name.

How the model is built:

- The filesystem is a finite tree. A `Node` is what `fs::metadata` reports for
  a path: `NoMetadata`, a non-directory `File`, or a `Directory` with the
  ordered listing `fs::read_dir` would give. A listing item is either
  `EntryError` or a named `Entry`.
- A path is the sequence of its components. An entry's path is its
  directory's path with the entry's name appended.
- `Discovery.Extension` is Rust's `Path::extension` applied to a file name.
  The name `..` has no extension. A name with no dot has none. A name whose
  last dot is its first character (`.ts`) has none. Otherwise the extension is
  the text after the last dot.
- `Discovery.FindByExtensionsInDir` is the recursive method with the source's
  `for` loop and its nested push loop. It is proved equal to the function
  `Discovery.Find`. Separately, `Find` is proved sound and complete against
  `ReachesFile`, an independent description of which files can be reached.
- File reading and parsing are oracle parameters: `read: Path -> Option<string>`
  and `parse: string -> SyntaxTree`. `SyntaxTree` is an opaque type.
- The code excludes one hard-coded directory name, `node_modules`. A
  directory with exactly that name falls through to the extension test on
  src/utils.rs:19; the model keeps that branch and proves it never yields a
  path. The parsed map keeps only path → tree (`parser.parse(..).unwrap()`).

## Model

| member | source | states |
|---|---|---|
| `Discovery.Extension` | src/utils.rs:19 | No extension exactly when the name is `..` or has no dot after position 0; otherwise the result is the dot-free suffix after the last dot, with a non-empty stem before it |
| `Discovery.TsExtensionExamples` | src/utils.rs:19-20 | With extensions `{ts}`: `a.ts` matches; `a.tsx`, `a.ts.bak`, `a`, `a.TS` and the hidden file `.ts` do not |
| `Discovery.FindByExtensionsInDir` | src/utils.rs:4-38 | The loop's output equals `Find` for the same path, metadata and extensions; a root without metadata or that is not a directory yields the empty sequence |
| `Discovery.FindInEntriesAppend` | src/utils.rs:10-23 | The result for a listing `a + b` is the result for `a` followed by the result for `b` |
| `Discovery.DepthFirstOrder` | src/utils.rs:14-18 | A non-`node_modules` subdirectory's results appear contiguously at its position among its siblings |
| `Discovery.BadEntrySkipped` | src/utils.rs:11-28 | Inserting an entry error or an entry without metadata anywhere in a listing changes nothing; the siblings after it are still walked |
| `Discovery.NodeModulesYieldsNothing` | src/utils.rs:14-23 | An entry that is a directory named `node_modules` contributes no path |
| `Discovery.FindInEntriesSound` | src/utils.rs:10-23 | Each path found in a listing is the directory followed by a relative path that reaches a `File` through non-`node_modules` directories, and the file name matches an extension |
| `Discovery.FindSound` | src/utils.rs:6-23 | Each returned path lies below the root, reaches a `File` (never a directory), and has an extension in `exts` |
| `Discovery.FindInEntriesComplete` | src/utils.rs:10-23 | Every file reachable in a listing through non-`node_modules` directories, with a matching extension, is found |
| `Discovery.FindComplete` | src/utils.rs:6-23 | Every file reachable from the root through non-`node_modules` directories, with metadata and a matching extension, is returned |
| `Discovery.ReachesAvoidsNodeModules` | src/utils.rs:14-15 | No directory on a reaching path, below the listing, is named `node_modules` |
| `Discovery.FindExcludesNodeModules` | src/utils.rs:14 | No returned path has an ancestor below the root named `node_modules`, at any depth |
| `Discovery.DirectoryNotCollected` | src/utils.rs:14-18 | A directory entry, even one named like `lib.ts`, is never returned itself; everything it yields lies strictly below it |
| `Backend.ParseAll` | src/backends/typescript/backend.rs:24-35 | The map's keys are exactly the paths whose read succeeded; each key maps to the parse of its text |
| `Backend.TypeScriptBackend.constructor` | src/backends/typescript/backend.rs:13-19 | A new backend has `parsed == None` |
| `Backend.TypeScriptBackend.ParseDirectory` | src/backends/typescript/backend.rs:21-38 | Afterwards `parsed` is `Some` of the map built from the `.ts` discovery of the directory, whatever it held before (a fresh map, not merged), and the returned value is that same `parsed` |
| `Backend.ParsedKeys` | src/backends/typescript/backend.rs:23-33 | A path is a key after parsing exactly when it reaches a file through non-`node_modules` directories, has extension `ts`, and its read succeeds |
| `Backend.ParsedKeysAreTsFiles` | src/backends/typescript/backend.rs:23 | Every key lies below the parsed directory and has extension exactly `ts` |
| `Backend.CaptureName` | src/backends/typescript/backend.rs:89-97 | The result is the name of the first arm whose index equals the capture index; it is `"Unknown"` exactly when no arm's index matches |
| `Backend.CaptureIndexForName` | src/backends/typescript/backend.rs:75-80 | An index is reported exactly for the six capture names of the import query |
| `Backend.ClassificationRoundTrip` | src/backends/typescript/backend.rs:75-97 | With distinct indices, classifying a name's index gives the name back, and every known classification maps back to the index |
| `Backend.FirstArmWins` | src/backends/typescript/backend.rs:89-97 | For any two arms j < k with the same index, that index is never classified as arm k's name: the earlier arm wins |

## Left out

- Real filesystem calls (`fs::metadata`, `fs::read_dir`, `fs::read_to_string`) are replaced by the tree and the `read` oracle. Symbolic links and cycles are not modelled. A tree is finite and acyclic.
- The `unwrap` on `fs::read_dir` (src/utils.rs:9) is not modelled: a directory's listing is always available. The `unwrap` on `parser.parse` (src/backends/typescript/backend.rs:28) is a total `parse` oracle.
- Names within one directory may repeat in the model; a real directory has unique names. Soundness and completeness hold either way.
- Paths are component sequences. The joining of components with a separator and the `OsString` encoding are not modelled.
- The `parser` field, grammar loading and its `expect` (src/backends/typescript/backend.rs:8, 15, 18) are foreign engine code.
- `find_function_calls_in_tree` and the query building and matching of `find_imports_in_tree` (src/backends/typescript/backend.rs:40-88) are foreign engine code. So is the order in which the engine assigns capture indices, so the indices are a parameter.
- All `println!` output, including the log lines for entry errors, a root without metadata, and failed reads.
- Statement-level import grouping is not in backend.rs, which only prints raw captures, so it is not modelled.
- src/main.rs is command-line glue. It calls backend methods that backend.rs does not define. It is not part of this model.
- src/backends.rs holds plain data with getters and a fixed error message. It has no behaviour to verify and is not part of this model.
