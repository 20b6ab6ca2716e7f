/**
 * The game manager: it owns the catalog, loads it from the manifest,
 * starts and completes installs by cloning a repository with git, and
 * resolves the entry document a game is launched with.
 *
 * Signals and the ordered external effects of an operation are appended
 * to the ghost `trace`. The git process is the `InstallJob` that
 * `InstallGame` returns; its exit is delivered later to `CompleteInstall`.
 */
module Manager {
  import opened Wrappers
  import opened Disk
  import opened Games

  /** Signals the manager emits and external effects it causes, in order. */
  datatype Effect =
    | CatalogUpdated
    | InstallationStarted(gameId: string)
    | InstallationFinished(gameId: string, success: bool)
    | LaunchRequested(url: string)
    | DirectoryRemoved(path: string)
    | ProcessStarted(program: string, arguments: seq<string>)

  /** How the external process ended. */
  datatype ExitStatus = NormalExit | CrashExit

  /** A started install: the game copy its completion captured and the command run. */
  datatype InstallJob = InstallJob(game: Game, program: string, arguments: seq<string>)

  /**
   * `QUrl::fromLocalFile(path).toString()` for a path that starts with a
   * single `/` (no percent-escaping).
   */
  function LocalFileUrl(path: string): (u: string)
    ensures |u| == 7 + |path| && u[..7] == "file://" && u[7..] == path
  {
    "file://" + path
  }

  /** Different documents are requested under different URLs. */
  lemma LocalFileUrlInjective(p: string, q: string)
    requires LocalFileUrl(p) == LocalFileUrl(q)
    ensures p == q
  {
  }

  /**
   * The document a launch opens: nothing for a game that is not installed;
   * otherwise `index.html` in its directory when present, else the first
   * HTML file of the listing, else nothing.
   */
  function EntryDocument(game: Game, t: Tree): (r: Option<string>)
    ensures !game.isInstalled ==> r == None
    ensures game.isInstalled && HasChild(t, game.localPath, "index.html") ==>
      r == Some(JoinPath(game.localPath, "index.html"))
    ensures game.isInstalled && !HasChild(t, game.localPath, "index.html") ==>
      var l := Listing(t, game.localPath);
      && (r.None? <==> forall j :: 0 <= j < |l| ==> !IsHtmlFile(l[j]))
      && (r.Some? ==> exists k :: 0 <= k < |l| && IsHtmlFile(l[k])
                                 && (forall j :: 0 <= j < k ==> !IsHtmlFile(l[j]))
                                 && r.value == JoinPath(game.localPath, l[k].name))
  {
    if !game.isInstalled then None
    else if HasChild(t, game.localPath, "index.html") then Some(JoinPath(game.localPath, "index.html"))
    else
      var l := Listing(t, game.localPath);
      match FirstHtmlFile(l)
      case None => None
      case Some(k) => Some(JoinPath(game.localPath, l[k].name))
  }

  /** Whether the process's exit counts as a successful clone. */
  predicate Succeeded(exitCode: int, status: ExitStatus)
  {
    status == NormalExit && exitCode == 0
  }

  class GameManager {
    /** The install root, `<app data>/games`, fixed at construction. */
    const root: string
    var games: seq<Game>
    ghost var trace: seq<Effect>

    ghost predicate Valid()
      reads this
    {
      PathsConsistent(games, root)
    }

    /** Fixes the root and creates its directory when it is missing. */
    constructor (appDataLocation: string, disk: FileSystem)
      modifies disk
      ensures root == appDataLocation + "/games"
      ensures games == [] && trace == []
      ensures disk.dirs == if root in old(disk.dirs) then old(disk.dirs) else old(disk.dirs)[root := []]
      ensures Valid()
    {
      root := appDataLocation + "/games";
      games := [];
      trace := [];
      new;
      if root !in disk.dirs {
        disk.dirs := disk.dirs[root := []];
      }
    }

    /**
     * Loads the catalog from the decoded manifest, `None` when the manifest
     * file cannot be opened. On failure nothing changes; on success the
     * previous catalog is replaced and `catalogUpdated` is emitted once.
     */
    method FetchCatalog(manifest: Option<seq<ManifestRecord>>, disk: FileSystem)
      requires Valid()
      modifies this`games, this`trace
      ensures Valid()
      ensures manifest.None? ==> games == old(games) && trace == old(trace)
      ensures manifest.Some? ==>
        && games == LoadedCatalog(manifest.value, root, disk.dirs.Keys)
        && trace == old(trace) + [CatalogUpdated]
    {
      if manifest.None? {
        return;
      }
      var records := manifest.value;
      games := [];
      var i := 0;
      while i < |records|
        invariant 0 <= i <= |records|
        invariant games == LoadedCatalog(records[..i], root, disk.dirs.Keys)
        invariant trace == old(trace)
      {
        var rec := records[i];
        var path := InstallPath(root, rec.id);
        var game := Game(rec.id, rec.title, rec.description, rec.repoUrl, rec.author, rec.version, false, "");
        if path in disk.dirs {
          game := game.(isInstalled := true, localPath := path);
        }
        assert game == LoadGame(rec, root, disk.dirs.Keys);
        assert records[..i + 1][..i] == records[..i];
        assert LoadedCatalog(records[..i + 1], root, disk.dirs.Keys)
            == LoadedCatalog(records[..i], root, disk.dirs.Keys) + [game];
        games := games + [game];
        i := i + 1;
      }
      assert records[..i] == records;
      LoadedCatalogConsistent(records, root, disk.dirs.Keys);
      trace := trace + [CatalogUpdated];
    }

    /**
     * Starts installing `game`: emits `gameInstallationStarted`, removes an
     * existing target directory, then starts `git clone <repoUrl> <target>`.
     * The catalog itself is not touched until the completion.
     */
    method InstallGame(game: Game, disk: FileSystem) returns (job: InstallJob)
      modifies this`trace, disk
      ensures job == InstallJob(game, "git", ["clone", game.repoUrl, InstallPath(root, game.id)])
      ensures var target := InstallPath(root, game.id);
        && disk.dirs == (if target in old(disk.dirs) then RemoveTree(old(disk.dirs), target) else old(disk.dirs))
        && trace == old(trace) + [InstallationStarted(game.id)]
                   + (if target in old(disk.dirs) then [DirectoryRemoved(target)] else [])
                   + [ProcessStarted("git", job.arguments)]
      ensures var target := InstallPath(root, game.id);
        && (forall d :: d in disk.dirs ==> d in old(disk.dirs) && disk.dirs[d] == old(disk.dirs)[d])
        && (forall d :: d in old(disk.dirs) && !Within(d, target) ==> d in disk.dirs)
        && (target in old(disk.dirs) ==> forall d :: d in disk.dirs ==> !Within(d, target))
    {
      trace := trace + [InstallationStarted(game.id)];
      var target := InstallPath(root, game.id);
      if target in disk.dirs {
        disk.dirs := RemoveTree(disk.dirs, target);
        trace := trace + [DirectoryRemoved(target)];
      }
      var args := ["clone", game.repoUrl, target];
      job := InstallJob(game, "git", args);
      trace := trace + [ProcessStarted("git", args)];
    }

    /**
     * The process of `job` finished. The first game with the job's id gets
     * the outcome; then `gameInstallationFinished` and `catalogUpdated` are
     * emitted, in that order.
     */
    method CompleteInstall(job: InstallJob, exitCode: int, status: ExitStatus)
      requires Valid()
      modifies this`games, this`trace
      ensures Valid()
      ensures var success := Succeeded(exitCode, status);
        && games == ApplyInstallResult(old(games), job.game.id, success, InstallPath(root, job.game.id))
        && trace == old(trace) + [InstallationFinished(job.game.id, success), CatalogUpdated]
    {
      var success := status == NormalExit && exitCode == 0;
      var id := job.game.id;
      var path := InstallPath(root, id);
      ghost var before := games;
      ApplyInstallResultAtFirstIndex(before, id, success, path);
      ApplyInstallResultConsistent(before, root, id, success);
      var i := 0;
      while i < |games|
        invariant 0 <= i <= |games| && games == before && trace == old(trace)
        invariant forall j :: 0 <= j < i ==> games[j].id != id
      {
        if games[i].id == id {
          games := games[i := WithInstallResult(games[i], success, path)];
          break;
        }
        i := i + 1;
      }
      trace := trace + [InstallationFinished(id, success), CatalogUpdated];
    }

    /** Requests display of the game's entry document, if one is found. */
    method LaunchGame(game: Game, disk: FileSystem)
      modifies this`trace
      ensures trace == old(trace) + match EntryDocument(game, disk.dirs)
                                    case None => []
                                    case Some(p) => [LaunchRequested(LocalFileUrl(p))]
    {
      if !game.isInstalled {
        return;
      }
      var dir := game.localPath;
      var indexFile := "";
      if HasChild(disk.dirs, dir, "index.html") {
        indexFile := JoinPath(dir, "index.html");
      } else {
        var files := Listing(disk.dirs, dir);
        match FirstHtmlFile(files)
        case Some(k) => indexFile := JoinPath(dir, files[k].name);
        case None =>
      }
      if indexFile != "" {
        trace := trace + [LaunchRequested(LocalFileUrl(indexFile))];
      }
    }

    method GetAllGames() returns (r: seq<Game>)
      ensures r == games
    {
      r := games;
    }

    /** The installed games, in catalog order. */
    method GetInstalledGames() returns (installed: seq<Game>)
      ensures installed == InstalledOnly(games)
    {
      installed := [];
      var i := 0;
      while i < |games|
        invariant 0 <= i <= |games|
        invariant installed == InstalledOnly(games[..i])
      {
        assert games[..i + 1][..i] == games[..i];
        if games[i].isInstalled {
          installed := installed + [games[i]];
        }
        i := i + 1;
      }
      assert games[..i] == games;
    }
  }
}

/**
 * A verified client scenario: a one-game manifest whose directory is absent loads as not
 * installed; a successful clone (its files written by git, outside the
 * manager) marks it installed, and a launch then opens its `index.html`.
 */
module ManagerClient {
  import opened Wrappers
  import opened Disk
  import opened Games
  import opened Manager

  method InstallThenLaunch()
  {
    var disk := new FileSystem(map[]);
    var gm := new GameManager("/data", disk);
    var rec := ManifestRecord("a", "A", "", "https://x/repo.git", "", "1");
    gm.FetchCatalog(Some([rec]), disk);
    assert InstallPath(gm.root, "a") == "/data/games/a";
    assert !gm.games[0].isInstalled;
    var all := gm.GetAllGames();
    var job := gm.InstallGame(all[0], disk);
    assert job.arguments == ["clone", "https://x/repo.git", "/data/games/a"];
    InstallSucceeds(gm, job, disk);
  }

  method InstallSucceeds(gm: GameManager, job: InstallJob, disk: FileSystem)
    requires gm.Valid() && gm.root == "/data/games" && job.game.id == "a"
    requires |gm.games| == 1 && gm.games[0].id == "a"
    modifies gm, disk
  {
    disk.dirs := disk.dirs["/data/games/a" := [Entry("main.html", true, false), Entry("index.html", true, false)]];
    gm.CompleteInstall(job, 0, NormalExit);
    assert InstallPath(gm.root, "a") == "/data/games/a";
    assert gm.games[0].isInstalled && gm.games[0].localPath == "/data/games/a";
    var installed := gm.GetInstalledGames();
    assert installed == [gm.games[0]];
    LaunchOpensIndex(gm, installed[0], disk);
  }

  method LaunchOpensIndex(gm: GameManager, game: Game, disk: FileSystem)
    requires game.isInstalled && game.localPath == "/data/games/a"
    requires "/data/games/a" in disk.dirs
    requires disk.dirs["/data/games/a"] == [Entry("main.html", true, false), Entry("index.html", true, false)]
    modifies gm
  {
    assert HasChild(disk.dirs, "/data/games/a", "index.html") by {
      assert Listing(disk.dirs, "/data/games/a")[1].name == "index.html";
    }
    var doc := JoinPath(game.localPath, "index.html");
    assert EntryDocument(game, disk.dirs) == Some(doc);
    ghost var before := gm.trace;
    gm.LaunchGame(game, disk);
    assert gm.trace == before + [LaunchRequested(LocalFileUrl(doc))];
  }
}
