# Game catalog manager — Dafny model

This project models the two stateful components of a small desktop game
store: the **game manager**, which holds the catalog of games, loads it from a
manifest, installs a game by cloning its git repository into
`<app data>/games/<id>` and launches an installed game by picking its entry
HTML document, and the **auth manager**, which stores a user name and a
developer-mode flag.

Layout:

- `wrappers.dfy` — `Option`.
- `disk.dfy` (module `Disk`) — the file system as the manager sees it: a map
  from existing directory paths to their listings (`Entry`: name, file or not,
  hidden or not), held by the mutable `FileSystem` object; path joining,
  `exists(name)`, the `*.html` file filter, the first HTML file of a listing
  and recursive removal.
- `games.dfy` (module `Games`) — the `Game` record and the pure functions
  the manager is proved against: the catalog a load produces
  (`LoadedCatalog`), the installed-only view (`InstalledOnly`), the first game
  with an id (`FirstIndex`) and the catalog after an install finished
  (`ApplyInstallResult`), plus the invariant `PathsConsistent` (an installed
  game's path is `root + "/" + id`).
- `game_manager.dfy` (module `Manager`) — class `GameManager` with the
  catalog `games`, the fixed root and a ghost `trace` of emitted signals and
  ordered external effects (directory removal, process start). The git
  process is the `InstallJob` value `InstallGame` returns; its exit
  `(exitCode, status)` is delivered later to `CompleteInstall`. Module
  `ManagerClient` is a verified client scenario: load, install, complete,
  launch.
- `auth_manager.dfy` (module `Auth`) — class `AuthManager` with a ghost log
  of its two signals.

Inputs that come from outside the code are parameters: the decoded manifest
(`None` when the manifest file cannot be opened), the file system object, the
app-data location, and the process's exit code and status.

Behaviour of the code that the model keeps as written:

- ids are not checked as path segments; `root + "/" + id` is used as is;
- records without an id are not skipped (they load with id `""`);
- `installGame` has no guard against a second install of the same id;
- a failed install sets `isInstalled` to false but keeps the old `localPath`
  (a failed reinstall leaves the previous path in the record); the invariant
  that does hold is "installed implies path is `root/id`";
- a manifest that opens but is not a JSON array decodes to an empty array, so
  the catalog is cleared and `catalogUpdated` is emitted; only a manifest that
  cannot be opened leaves the catalog and the signals untouched.

## Model

| member | source | states |
|---|---|---|
| `Disk.JoinPathInjective` | src/GameManager.cpp:65 | two ids give the same install directory only when they are equal |
| `Disk.FirstHtmlFile` | src/GameManager.cpp:117-123 | the position found is an HTML file with no HTML file before it; none is found exactly when the listing holds no HTML file |
| `Disk.RemoveTreeLeavesNothingBelow` | src/GameManager.cpp:75 | the removed directory and every sub-directory of it are gone |
| `Games.LoadedCatalog` | src/GameManager.cpp:39-58 | one game per manifest record, in manifest order; metadata copied; installed iff `root/id` exists; `localPath` is that path when installed and empty otherwise |
| `Games.LoadedCatalogConsistent` | src/GameManager.cpp:50-55 | every freshly loaded installed game has path `root/id` |
| `Games.InstalledOnly` | src/GameManager.cpp:136-143 | the result is no longer than the catalog and holds only installed games of it |
| `Games.InstalledOnlyIsOrderedFilter` | src/GameManager.cpp:136-143 | the result is the catalog's subsequence at strictly increasing positions, and those positions are exactly the installed games |
| `Games.FirstIndex` | src/GameManager.cpp:89-90 | the position found has the id and no earlier game has it; none is found iff no game has the id |
| `Games.ApplyInstallResult` | src/GameManager.cpp:86-96 | length kept; only the first game with the id changes: installed becomes the outcome, path becomes `root/id` on success and stays on failure, other fields kept; no match, no change |
| `Games.ApplyInstallResultAtFirstIndex` | src/GameManager.cpp:89-96 | the scan-with-break equals a single update at `FirstIndex` |
| `Games.ApplyInstallResultConsistent` | src/GameManager.cpp:91-93 | an install completion keeps "installed implies path is `root/id`" |
| `Manager.LocalFileUrlInjective` | src/GameManager.cpp:128 | two documents are requested under the same URL only when they are the same path |
| `Manager.EntryDocument` | src/GameManager.cpp:106-124 | nothing for a game not installed; `index.html` when present even with other HTML files; else the first HTML file of the listing; nothing iff there is none |
| `Manager.GameManager.constructor` | src/GameManager.cpp:11-20 | the root is `<app data>/games`, created with an empty listing only if missing; empty catalog, no signals |
| `Manager.GameManager.FetchCatalog` | src/GameManager.cpp:22-60 | open failure changes nothing and emits nothing; otherwise the catalog is replaced by `LoadedCatalog` and `catalogUpdated` is emitted once, after |
| `Manager.GameManager.InstallGame` | src/GameManager.cpp:62-104 | in order: `gameInstallationStarted(id)`, removal of the target directory only if it exists, start of `git` with exactly `clone <repoUrl> <root/id>`; when the target existed, afterwards no directory at or below it exists; every other directory survives with its listing, and the catalog is untouched |
| `Manager.GameManager.CompleteInstall` | src/GameManager.cpp:83-101 | success iff normal exit with code 0; catalog becomes `ApplyInstallResult`; emits `gameInstallationFinished(id, success)` then `catalogUpdated` |
| `Manager.GameManager.LaunchGame` | src/GameManager.cpp:106-132 | exactly one `gameLaunchRequested` with the URL of `EntryDocument` when there is one, no signal otherwise; the catalog is untouched |
| `Manager.GameManager.GetAllGames` | src/GameManager.cpp:134 | returns the catalog |
| `Manager.GameManager.GetInstalledGames` | src/GameManager.cpp:136-143 | returns `InstalledOnly` of the catalog |
| `Auth.AuthManager.constructor` | src/AuthManager.cpp:3-4 | empty user name, developer mode off, no signals |
| `Auth.AuthManager.Login` | src/AuthManager.cpp:6-12 | succeeds iff the name is non-empty; then sets the name, keeps the flag and emits `userChanged` once; otherwise changes and emits nothing |
| `Auth.AuthManager.Logout` | src/AuthManager.cpp:14-19 | clears the name and the flag and always emits `userChanged` then `developerModeChanged(false)` |
| `Auth.AuthManager.IsDeveloper` | src/AuthManager.cpp:21 | returns the flag |
| `Auth.AuthManager.SetDeveloperMode` | src/AuthManager.cpp:23-28 | the flag ends equal to the argument; `developerModeChanged(b)` is emitted iff the flag changed |
| `Auth.AuthManager.GetUsername` | src/AuthManager.cpp:30 | returns the name |
| `Auth.SetDeveloperModeTwice` | src/AuthManager.cpp:23-28 | two calls with the same value have exactly the effect of one: the second is silent |

## Left out

- Reading `data/store_manifest.json` and JSON decoding: the manifest arrives as
  an already decoded sequence of records (a non-object element or a missing
  field gives empty strings), or `None` when the file cannot be opened.
- The app-data lookup in the constructor: its result is the parameter
  `appDataLocation`. `mkpath` is modelled as adding the root with an empty
  listing; creating missing ancestors and failure of `mkpath` are not modelled.
- Qt's path cleaning: paths are compared as strings, so `QDir` treating
  `root + "/"` (an empty id) as `root`, or resolving `..` in an id, is not
  modelled. In the code a record with id `""` therefore loads as installed
  with path `root + "/"`, and installing it removes the whole install root
  with every installed game; the model loads it as not installed and removes
  nothing.
- Disk.HasChild: compares names exactly, so it models a case-sensitive file
  system; on a case-insensitive one `exists("index.html")` also finds, for
  example, `Index.html`.
- The order of `entryList`, which Qt sorts by name ignoring case by default:
  each directory's listing is taken as already in the order `entryList`
  returns.
- Disk.MatchesHtmlFilter: folds case for ASCII letters only, while Qt's
  case-insensitive wildcard also folds other letters.
- Disk.RemoveTree: removes the directory and everything below it but does not
  drop the removed directory from its parent's listing (nothing in the core
  lists the install root); a partially failing removal is not modelled.
- Manager.LocalFileUrl: assumes a POSIX path that starts with a single `/`
  and does not percent-escape characters. Qt puts a `/` before a drive letter
  (`C:/x` becomes `file:///C:/x`, the model gives `file://C:/x`) and turns
  the first part of a path starting with `//` into a host; neither is
  modelled. `absoluteFilePath` is modelled as plain joining.
- What git writes to disk: a clone's files appear only if the caller changes
  the `FileSystem`, as the verified client scenario does. When git cannot be started, Qt
  reports an error instead of `finished`, so no completion is delivered; the
  model has no such path because `CompleteInstall` is simply never called.
- Asynchrony and the Qt event loop: completion is a later sequential call;
  slots that react to a signal while the emitting method is still running are
  not modelled. Freeing the process object (`deleteLater`) is not modelled.
- Warning messages (`qWarning`) are not modelled.
- The window, its dialogs and the program entry point (src/MainWindow.cpp,
  src/main.cpp) are not part of this model.
