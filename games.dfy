/**
 * The catalog: the record of one game and the pure functions that say what
 * the catalog becomes when it is loaded, filtered or updated after an
 * install. The game manager's methods are proved against these.
 */
module Games {
  import opened Wrappers
  import opened Disk

  /** One catalog entry, field for field as the source's `Game` record. */
  datatype Game = Game(
    id: string,
    title: string,
    description: string,
    repoUrl: string,
    author: string,
    version: string,
    isInstalled: bool,
    localPath: string)

  /** One element of the decoded manifest array (a missing field reads as ""). */
  datatype ManifestRecord = ManifestRecord(
    id: string,
    title: string,
    description: string,
    repoUrl: string,
    author: string,
    version: string)

  /** Where a game with this id lives under the install root. */
  function InstallPath(root: string, id: string): string
  {
    JoinPath(root, id)
  }

  /** The game that the load loop builds from one record. */
  function LoadGame(rec: ManifestRecord, root: string, existing: set<string>): Game
  {
    var path := InstallPath(root, rec.id);
    var installed := path in existing;
    Game(rec.id, rec.title, rec.description, rec.repoUrl, rec.author, rec.version,
         installed, if installed then path else "")
  }

  /**
   * The catalog a successful load produces: the records' games appended in
   * manifest order. One game per record, its metadata copied, installed
   * exactly when its directory exists, and then with that directory as path.
   */
  function LoadedCatalog(records: seq<ManifestRecord>, root: string, existing: set<string>): (r: seq<Game>)
    ensures |r| == |records|
    ensures forall i :: 0 <= i < |records| ==> r[i] == LoadGame(records[i], root, existing)
    ensures forall i :: 0 <= i < |records| ==>
      && r[i].id == records[i].id && r[i].title == records[i].title
      && r[i].description == records[i].description && r[i].repoUrl == records[i].repoUrl
      && r[i].author == records[i].author && r[i].version == records[i].version
      && (r[i].isInstalled <==> InstallPath(root, records[i].id) in existing)
      && r[i].localPath == (if r[i].isInstalled then InstallPath(root, records[i].id) else "")
  {
    if records == [] then []
    else LoadedCatalog(records[..|records| - 1], root, existing)
         + [LoadGame(records[|records| - 1], root, existing)]
  }

  /**
   * The invariant every catalog the manager holds keeps: an installed game's
   * path is its directory under the install root.
   */
  predicate PathsConsistent(games: seq<Game>, root: string)
  {
    forall i :: 0 <= i < |games| && games[i].isInstalled ==>
      games[i].localPath == InstallPath(root, games[i].id)
  }

  lemma LoadedCatalogConsistent(records: seq<ManifestRecord>, root: string, existing: set<string>)
    ensures PathsConsistent(LoadedCatalog(records, root, existing), root)
  {
  }

  /** The installed games, in catalog order. */
  function InstalledOnly(games: seq<Game>): (r: seq<Game>)
    ensures |r| <= |games|
    ensures forall g :: g in r ==> g in games && g.isInstalled
  {
    if games == [] then []
    else InstalledOnly(games[..|games| - 1])
         + (if games[|games| - 1].isInstalled then [games[|games| - 1]] else [])
  }

  /**
   * `InstalledOnly` is an order-preserving filter: its result is the
   * subsequence of `games` at the strictly increasing positions `idx`, and
   * those positions are exactly the installed ones.
   */
  lemma {:induction false} InstalledOnlyIsOrderedFilter(games: seq<Game>) returns (idx: seq<nat>)
    ensures |idx| == |InstalledOnly(games)|
    ensures forall k :: 0 <= k < |idx| ==> idx[k] < |games| && InstalledOnly(games)[k] == games[idx[k]]
    ensures forall k, l :: 0 <= k < l < |idx| ==> idx[k] < idx[l]
    ensures forall i :: 0 <= i < |games| ==> (games[i].isInstalled <==> i in idx)
  {
    if games == [] {
      idx := [];
    } else {
      var n := |games| - 1;
      var front := games[..n];
      var prev := InstalledOnlyIsOrderedFilter(front);
      var rest := InstalledOnly(front);
      var r := InstalledOnly(games);
      assert r == rest + (if games[n].isInstalled then [games[n]] else []);
      assert forall k :: 0 <= k < |prev| ==> prev[k] < n;
      if games[n].isInstalled {
        idx := prev + [n];
        assert r == rest + [games[n]];
        forall k | 0 <= k < |idx|
          ensures idx[k] < |games| && r[k] == games[idx[k]]
        {
          if k < |prev| {
            assert r[k] == rest[k] == front[prev[k]];
          }
        }
      } else {
        idx := prev;
        assert r == rest;
      }
      forall i | 0 <= i < |games|
        ensures games[i].isInstalled <==> i in idx
      {
        if i < n {
          assert games[i] == front[i];
        }
      }
    }
  }

  /** Position of the first game with this id, if any. */
  function FirstIndex(games: seq<Game>, id: string): (r: Option<nat>)
    ensures r.Some? ==> r.value < |games| && games[r.value].id == id
    ensures r.Some? ==> forall j :: 0 <= j < r.value ==> games[j].id != id
    ensures r.None? <==> forall j :: 0 <= j < |games| ==> games[j].id != id
  {
    if games == [] then None
    else if games[0].id == id then Some(0)
    else match FirstIndex(games[1..], id)
      case None => None
      case Some(k) => Some(k + 1)
  }

  /** The one entry an install completion changes. */
  function WithInstallResult(g: Game, success: bool, path: string): Game
  {
    g.(isInstalled := success, localPath := if success then path else g.localPath)
  }

  /**
   * The catalog after an install of `id` finished: a scan that stops at the
   * first game with that id and updates only it. All other games are
   * unchanged, and nothing changes when no game has the id.
   */
  function ApplyInstallResult(games: seq<Game>, id: string, success: bool, path: string): (r: seq<Game>)
    ensures |r| == |games|
    ensures FirstIndex(games, id).None? ==> r == games
    ensures FirstIndex(games, id).Some? ==>
      var k := FirstIndex(games, id).value;
      && (forall i :: 0 <= i < |games| && i != k ==> r[i] == games[i])
      && r[k].id == games[k].id && r[k].title == games[k].title
      && r[k].description == games[k].description && r[k].repoUrl == games[k].repoUrl
      && r[k].author == games[k].author && r[k].version == games[k].version
      && r[k].isInstalled == success
      && r[k].localPath == (if success then path else games[k].localPath)
  {
    if games == [] then []
    else if games[0].id == id then [WithInstallResult(games[0], success, path)] + games[1..]
    else [games[0]] + ApplyInstallResult(games[1..], id, success, path)
  }

  /** The scan updates exactly the entry `FirstIndex` names. */
  lemma ApplyInstallResultAtFirstIndex(games: seq<Game>, id: string, success: bool, path: string)
    ensures ApplyInstallResult(games, id, success, path) ==
      match FirstIndex(games, id)
      case None => games
      case Some(k) => games[k := WithInstallResult(games[k], success, path)]
  {
  }

  /** Completing an install of a game keeps installed paths consistent. */
  lemma ApplyInstallResultConsistent(games: seq<Game>, root: string, id: string, success: bool)
    requires PathsConsistent(games, root)
    ensures PathsConsistent(ApplyInstallResult(games, id, success, InstallPath(root, id)), root)
  {
  }
}
