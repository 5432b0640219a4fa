# rest-setup, modelled in Dafny

`rest-setup` is a scaffolding command. It copies a fixed allow-list of entries
from its bundled Express template into the current directory. These are
`src`, `public`, `.env.example`, `.gitignore`, `.prettierignore` and
`.prettierrc`. It then writes a new `package.json` and runs `npm install`.
The template ships two small value classes, `ApiResponse` and `ApiError`.

This project models three things as pure functions over immutable data:

- **The project materializer** (`bin/cli.js`). The filesystem is a tree:
  `FsTree.Node = File(bytes) | Dir(map name -> Node)`. The template is a
  `FsTree.Listed` tree, in which each directory also carries the order that
  `readdirSync` lists its entries in.
  - `CopyDir.CopyEntry` and `CopyDir.CopyChildren` follow `copyDir` step by
    step, in listing order. Node's kind-conflict errors become an explicit
    `Failure`: `IsADirectory` when a file is copied onto a directory, and
    `NotADirectory` when something is created beneath a file.
  - `FsTree.Overlay` says the same thing without any order: files of the
    source replace what is there, directories merge, and nothing is removed.
    `FsTree.Compatible` says exactly when no error is raised.
  - `CopyDir.CopyEntryCorrect` proves that the step-by-step copy equals the
    overlay. This makes the result independent of listing order.
  - `Materializer.CopyAllowListed` is the `filesToCopy.forEach` loop.
    `Materializer.Materialize` is the whole run: the loop, then the manifest
    write.
  - `Manifest.NewManifest` builds the new manifest. `PosixPath.Basename`
    models `path.basename`.
- **`ApiResponse`** (`ApiResponses.NewApiResponse`): `success` is derived
  from the status code.
- **`ApiError`** (`ApiErrors.NewApiError`): `success` is always false, `data`
  is always null, and `stacks` is kept only when it is truthy.

`Results.Option` stands for a JavaScript value that may be `undefined`.
`Results.Result` stands for an operation that may throw.

Two edge cases of the code are kept as written:

- Copying an empty template directory onto an existing plain file raises no
  error and leaves the file in place. `existsSync` succeeds, so nothing is
  created, and there is no entry to copy.
- A missing status code makes `ApiResponse.success` false, because
  `undefined < 400` is false.

## Model

| member | source | states |
|---|---|---|
| `FsTree.OverlayFiles` | bin/cli.js:64-80 | After a copy, every file of the source is at the same relative path with the same content, overwriting any file already there; every other path keeps exactly the file it had |
| `FsTree.OverlayPaths` | bin/cli.js:64-80 | A copy never deletes: a path exists afterwards exactly when it existed in the source or in the destination |
| `FsTree.OverlayKeepsUnrelated` | bin/cli.js:65-67 | A destination node with no counterpart in the source is left unchanged, whether it is a file or a whole sub-tree |
| `FsTree.OverlayIdempotent` | bin/cli.js:64-80 | Copying the same source twice fits and gives the same tree as copying it once |
| `FsTree.OverlaySelf` | bin/cli.js:64-80 | Copying a tree onto an identical tree raises nothing and changes nothing |
| `CopyDir.PutFile` | bin/cli.js:78 | `copyFileSync` creates or overwrites a file, and fails (EISDIR) exactly when a directory stands at the destination |
| `CopyDir.CopyEntryErrors` | bin/cli.js:64-80 | A file copy fails exactly when a directory is at the destination, and then with EISDIR; a non-empty directory copied onto a plain file fails with ENOTDIR |
| `CopyDir.CopyEntryCorrect` | bin/cli.js:64-80 | `copyDir` on a source listed in any readdir order succeeds exactly when no kind conflict exists anywhere, and then yields the order-free overlay; a missing destination receives an exact copy |
| `CopyDir.CopyChildrenCorrect` | bin/cli.js:69-79 | The entry loop succeeds exactly when each listed entry fits what the destination holds under its name, and its result is then the overlay of those entries |
| `CopyDir.CopyOrderIndependent` | bin/cli.js:69-79 | Two readdir listings of the same source tree both succeed or both fail, and when they succeed they produce the same tree |
| `Materializer.CopyAllowListed` | bin/cli.js:27-38 | The allow-list loop succeeds exactly when the allow-listed part of the template fits the target, and then leaves that part overlaid on the target; names absent from the template are skipped |
| `Materializer.Materialize` | bin/cli.js:27-55 | A run (copy loop, then manifest write) succeeds exactly when the allow-listed template fits and no directory is named `package.json`, and yields the declared end state |
| `Materializer.MaterializeIdempotent` | bin/cli.js:27-55 | Running the command again on its own output succeeds and leaves the same target |
| `Materializer.MaterializeLeavesOthers` | bin/cli.js:14-38 | A top-level name off the allow-list, or allow-listed but missing from the template, is left exactly as it was (except `package.json`) |
| `Materializer.MaterializeFiles` | bin/cli.js:27-38 | Every file under an allow-listed template entry is found at the same path in the target with the same content; any other path keeps its file |
| `Materializer.MaterializePaths` | bin/cli.js:27-38 | No path below the target root is deleted, and no path appears that neither the allow-listed template nor the target had |
| `Materializer.MaterializeWritesManifest` | bin/cli.js:52-55 | After a run, `package.json` in the target holds exactly the serialized manifest, whatever was there before |
| `PosixPath.TrimTrailingSepsSpec` | bin/cli.js:43 | Trailing separators are stripped before the last segment is taken: only separators are removed, only from the end, and all of them |
| `PosixPath.LastSegmentSpec` | bin/cli.js:43 | The segment taken is the longest separator-free suffix of the path |
| `PosixPath.BasenameSpec` | bin/cli.js:43 | The base name holds no separator, and is empty exactly when the path is all separators |
| `PosixPath.BasenameOfJoin` | bin/cli.js:43 | The base name of `dir/name` is `name`, for any non-empty separator-free `name` |
| `PosixPath.BasenameTrailingSep` | bin/cli.js:43 | A trailing separator does not change the base name |
| `Manifest.ManifestFields` | bin/cli.js:42-50 | `name` is the target's base name; `version` is "1.0.0", whatever the template says; the five pass-through fields equal the template's when it has them and are absent otherwise; every other key is absent |
| `Manifest.ManifestKeyOrder` | bin/cli.js:42-50 | The written keys are distinct and come in the order name, version, description, main, scripts, dependencies, devDependencies |
| `Manifest.NewManifestSortedBy` | bin/cli.js:42-50 | The fields come out in the order they are written in the object literal: name, version, then the pass-through keys in list order, for any ranking of keys that orders them so |
| `Manifest.ManifestKeysKnown` | bin/cli.js:42-50 | No key other than the seven manifest keys (for example `author` or `license`) is written |
| `Manifest.CarryGet` | bin/cli.js:45-49 | A passed-through field has the template's value exactly when its key is carried and the template has it |
| `Manifest.ManifestExample` | bin/cli.js:41-50 | A template with description, main, scripts and dependencies, but no devDependencies, gives the manifest named `myapp` at version 1.0.0 with those four fields only |
| `ApiResponses.NewApiResponse` | src/utils/apiResponse.js:1-8 | `statusCode` and `data` are stored unchanged; `message` defaults to "success"; `success` holds exactly when the status code is below 400 |
| `ApiResponses.ResponseRoundTrip` | src/utils/apiResponse.js:2-6 | Every record whose `success` agrees with its status code is the one the constructor builds from its own fields |
| `ApiErrors.NewApiError` | src/utils/apiError.js:2-21 | `success` is false and `data` is null for every argument; `statusCode` is stored unchanged; `message` defaults to "Something went wrong !"; `errors` defaults to the empty list; `stacks` is present, and equal to the argument, exactly when the argument is truthy |
| `ApiErrors.ErrorRoundTrip` | src/utils/apiError.js:2-21 | Every record that is not a success, has null data and has only a truthy `stacks` is the one the constructor builds from its own fields |

## Left out

- `npm install` and every `console.log` (bin/cli.js:24, 58-61). These are
  process spawning and terminal output.
- `process.cwd()`, `__dirname` and the `require` of the template manifest
  (bin/cli.js:8, 11, 41). The target path, the template tree and the parsed
  manifest are inputs. A parse failure, duplicate JSON keys and a manifest
  that is not an object are therefore outside the model.
- Whitespace in `JSON.stringify(_, null, 2)` (bin/cli.js:54). The manifest is
  modelled as an ordered list of fields. Serialization is the parameter
  `stringify`.
- Full `path.join` / `path.basename` semantics. Only POSIX `/` separators
  are modelled, including the stripping of trailing separators.
- Symlinks, permissions, full disks, and the partial state left on disk when
  a copy fails midway. A `Failure` carries no tree. These are properties of
  the real filesystem.
- Case-insensitive filesystems (the default on macOS and Windows). Entry
  names are compared as exact strings, so an existing `Src/` and a copied
  `src` are two entries in the model, where such a filesystem would merge
  them.
- A target directory inside the template. The template and target roots are
  assumed disjoint: the template is a fixed input that the copy's writes
  cannot reach. A run started in, say, `<template>/src` would make `copyDir`
  list the directories it has just created and nest until Node throws; the
  model does not describe that run. A run started in the template root
  itself is covered, as copying a tree onto an identical tree
  (`FsTree.OverlaySelf`).
- `CopyDir.CopyOrderIndependent`: when both listings fail, the error kind
  may differ between them. The first conflicting entry in listing order
  decides it, as in the code.
- `Error.captureStackTrace`, `super(message)` and inheritance from `Error`
  (src/utils/apiError.js:1, 8, 18). These are host-runtime facilities, and
  the `stack` property they create is not modelled.
- JavaScript numbers are integers here. A status code that is not a number
  (a numeric string, say) is not modelled; an absent one is.
- src/utils/cloudinary.js (a network upload), src/app.js (middleware
  wiring), src/index.js (server start-up) and src/db/db.js (database
  connection). They are glue around external services.
