# Nx project-directory resolver, modelled in Dafny

`getProjectDir.ts` is a small helper for Nx executors and generators. It has three functions:

- `getNxLibFolder` reads the libraries folder from nx.json's `workspaceLayout.libsDir`. When it is absent it falls back to `"libs"`.
- `readNxLibsFolder` does the same from the configuration read from a workspace tree. A missing nx.json counts as `{}`.
- `getProjectDir` gives no directory (`null`) when the executor context has no project name. Otherwise it gives `path.join(root, path.join(libsFolder, path.basename(projectName)))`. A scoped package such as `@scope/foo` therefore lives in `<root>/<libs>/foo`.

The project has three modules:

- `Wrappers` provides `Option`. It stands for a TypeScript value that may be `undefined`, and for `null` as a result.
- `PosixPath` models Node's POSIX `path.join`, the `path.normalize` that finishes it, and `path.basename` of one argument. Paths are strings and `/` is the separator. `Split` (JavaScript's `split("/")`), `TrimTrailingSeps` and `FinalPiece` recurse over characters. Normalisation and joining recurse over the pieces between separators. The lemmas about these functions cover:
  - splitting and gluing pieces are inverse operations;
  - a basename is the last non-empty piece;
  - normalising twice changes nothing;
  - normalising a relative inner path before an outer join does not change the outer join.
- `ProjectDir` holds the configuration and context records, the three functions, and what is proved about them:
  - when the configured folder is used and when the default is used;
  - the result exists exactly when there is a project name, and it is a non-empty path;
  - the two nested joins equal one flat join when the libraries folder is relative and the folder and the basename are not both empty;
  - only the basename of the project name matters;
  - for plain inputs, the last two pieces of the directory are the libraries folder and the basename.

Node's own `path` code is not reproduced. Its documented POSIX behaviour is written out instead:

- `join` drops empty arguments and glues the rest with `/`. It gives `.` when nothing is left, and otherwise normalises.
- `normalize` keeps a leading `/` and a trailing `/` and drops empty and `.` pieces. A `..` removes the previous kept piece, unless that piece is itself a `..`. Otherwise the `..` is kept for a relative path and dropped at the root of an absolute one. When nothing remains, the result is `/`, `./` or `.`.
- `basename` ignores trailing separators and returns the last piece. It returns `""` when the path is only separators.

## Model

| member | source | states |
|---|---|---|
| ProjectDir.GetNxLibFolder | src/content/blog/2025/06/04/getProjectDir.ts:13-17 | the result is `workspaceLayout.libsDir` exactly when the configuration, its `workspaceLayout` and its `libsDir` are all present, and `"libs"` when any link of the chain is missing |
| ProjectDir.ReadNxLibsFolder | src/content/blog/2025/06/04/getProjectDir.ts:9-11 | reading the libraries folder from what reading nx.json produced agrees with `getNxLibFolder` on it, and a missing nx.json (treated as `{}`) yields `"libs"` |
| ProjectDir.GetProjectDir | src/content/blog/2025/06/04/getProjectDir.ts:19-31 | there is no directory if and only if the project name is undefined; when there is one it is a non-empty path, and it is absolute whenever the root is |
| ProjectDir.ProjectDirIsFlatJoin | src/content/blog/2025/06/04/getProjectDir.ts:26-30 | with a relative libraries folder, and the folder and basename not both empty, the nested joins equal the single join of root, libraries folder and basename of the project name |
| ProjectDir.AbsoluteLibsDirIsNotFlat | src/content/blog/2025/06/04/getProjectDir.ts:26-30 | with libsDir `"/.."`, root `r` and project `x` (plain names), the nested joins give `r/x` while the flat join gives `x`, so the flat reading needs a relative libraries folder |
| ProjectDir.ProjectDirOfPlainInputs | src/content/blog/2025/06/04/getProjectDir.ts:26-29 | for a plain root (no empty, `.` or `..` pieces, no trailing `/`), a plain libraries folder name and a plain basename, the directory is exactly `root/libs/basename` |
| ProjectDir.ProjectDirPiecesOfPlainInputs | src/content/blog/2025/06/04/getProjectDir.ts:16-29 | for the same plain inputs, the last piece of the directory is the basename of the project name, the piece before it is the libraries folder, and the earlier pieces are those of the root |
| ProjectDir.ProjectDirUsesOnlyBasename | src/content/blog/2025/06/04/getProjectDir.ts:28-29 | replacing the project name by its basename does not change the directory, so two names with the same last segment resolve to the same directory |
| ProjectDir.ScopeIsStripped | src/content/blog/2025/06/04/getProjectDir.ts:28-29 | a scoped name `scope/name` and the bare `name` resolve to the same directory in every context |
| ProjectDir.NoProjectNameNoDir | src/content/blog/2025/06/04/getProjectDir.ts:25 | every context without a project name, whatever its root and configuration, has no directory |
| ProjectDir.DefaultLibsExample | src/content/blog/2025/06/04/getProjectDir.ts:16-30 | project `foo`, root `/r` and an empty nx.json give `/r/libs/foo` |
| ProjectDir.ScopedPackagesExample | src/content/blog/2025/06/04/getProjectDir.ts:16-30 | project `@scope/foo`, root `/r` and libsDir `packages` give `/r/packages/foo` |
| PosixPath.Basename | src/content/blog/2025/06/04/getProjectDir.ts:29 | the basename never contains a separator |
| PosixPath.TrimTrailingSeps | src/content/blog/2025/06/04/getProjectDir.ts:29 | trimming gives a prefix of the path that does not end in a separator, and every character dropped is a separator |
| PosixPath.FinalPiece | src/content/blog/2025/06/04/getProjectDir.ts:29 | the final piece is a suffix of the path without separators that is either the whole path or preceded by a separator, i.e. the longest such suffix |
| PosixPath.FinalPieceIsLastPiece | src/content/blog/2025/06/04/getProjectDir.ts:29 | the final piece is exactly the last piece of the path's split |
| PosixPath.BasenameIsLastNonEmptyPiece | src/content/blog/2025/06/04/getProjectDir.ts:29 | the basename of a path is the last non-empty piece between its separators, or `""` if there is none |
| PosixPath.BasenameIdempotent | src/content/blog/2025/06/04/getProjectDir.ts:29 | the basename of a basename is itself |
| PosixPath.BasenameAfterSep | src/content/blog/2025/06/04/getProjectDir.ts:28-29 | whatever precedes the last separator, the basename is the non-empty piece after it |
| PosixPath.JoinPiecesOfSplit | src/content/blog/2025/06/04/getProjectDir.ts:26-30 | gluing the pieces of a path back together with separators gives the path |
| PosixPath.SplitOfJoinPieces | src/content/blog/2025/06/04/getProjectDir.ts:26-30 | splitting glued pieces that contain no separator gives the pieces back |
| PosixPath.SplitAtSep | src/content/blog/2025/06/04/getProjectDir.ts:26-30 | splitting at a separator splits both sides independently |
| PosixPath.SplitHasNoSeps | src/content/blog/2025/06/04/getProjectDir.ts:26-30 | no piece of a split contains a separator |
| PosixPath.ResolveKeepsEntries | src/content/blog/2025/06/04/getProjectDir.ts:26-30 | resolving `.`, `..` and empty pieces keeps only real entries |
| PosixPath.ResolveNames | src/content/blog/2025/06/04/getProjectDir.ts:26-30 | resolving pieces that are all ordinary names appends them unchanged |
| PosixPath.ResolveRelativeFirst | src/content/blog/2025/06/04/getProjectDir.ts:26-30 | resolving a relative run of pieces on its own and then resolving the result under a prefix equals resolving the run under the prefix directly |
| PosixPath.Normalize | src/content/blog/2025/06/04/getProjectDir.ts:26-30 | `path.normalize` never returns an empty path, and its result is absolute exactly when its input is |
| PosixPath.NormalizeIdempotent | src/content/blog/2025/06/04/getProjectDir.ts:26-30 | normalising a normalised path changes nothing |
| PosixPath.NormalizeUnderPrefix | src/content/blog/2025/06/04/getProjectDir.ts:26-30 | normalising a non-empty relative path before gluing it after a prefix does not change the normalised whole |
| PosixPath.NormalizePlain | src/content/blog/2025/06/04/getProjectDir.ts:26-30 | a plain path is already normal |
| PosixPath.Join | src/content/blog/2025/06/04/getProjectDir.ts:26-30 | `path.join` always gives a non-empty path, absolute exactly when the glued non-empty arguments start with a separator |
| PosixPath.JoinNested | src/content/blog/2025/06/04/getProjectDir.ts:26-30 | `join(r, join(l, b))` equals `join(r, l, b)` when `l` and `b` glued together are non-empty and relative |
| PosixPath.JoinPlain | src/content/blog/2025/06/04/getProjectDir.ts:26-30 | joining two plain paths, the second relative, just puts a separator between them, and the result is plain with the pieces of both |

## Left out

- `readNxJson(tree)` reads nx.json from an Nx workspace tree, which is file I/O in the Nx devkit. `ReadNxLibsFolder` takes what it produced as an `Option` parameter instead, with `None` for a missing file.
- Node's `path` on Windows (`\` separators, drive letters, UNC paths) is not modelled; only the POSIX behaviour is.
- Node's own `path` code is not reproduced. `PosixPath` writes out the documented POSIX behaviour of `join`, `normalize` and one-argument `basename`, and nothing else from that module.
- JavaScript strings are UTF-16 code-unit sequences; they are modelled as `seq<char>`, whose elements are Unicode scalar values. The only characters inspected are `/` and `.` (in the pieces `.` and `..`), each a single code unit, so the model agrees on every string it can represent. Strings holding an unpaired surrogate cannot be represented and are outside the model.
- The type `Pick<ExecutorContext, "projectName" | "root" | "nxJsonConfiguration">` is modelled as a record with exactly those three fields. The result depending only on them therefore holds by construction and has no lemma of its own.
- `GetNxLibFolder` takes the optional `nxJsonConfiguration` field itself rather than a record holding it, since that field is all it reads.
- `appsDir` of `workspaceLayout` is carried but never read; the other nx.json fields are omitted, as the resolver does not read them.
- src/consts.ts, src/content/config.ts, astro.config.mjs and src/entrypoints/alpine.ts are not part of this model. They are site metadata, schema declarations, build configuration and browser glue, with no path logic.
