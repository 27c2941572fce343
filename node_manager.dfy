/** The node inventory of node_manager.py: the metadata store kept by
    `NodeManager`, the scan of a custom-nodes directory into `Node` records,
    the guards of clone, copy and delete, the upstream-update decision and
    the backup filter. Git, subprocess and file-system calls are replaced by
    their observable outcomes, passed in as parameters. */
module NodeManager {
  import opened Wrappers
  import opened Text
  import Paths

  // ---------------------------------------------------------------------------
  // Metadata store
  // ---------------------------------------------------------------------------

  /** The side-metadata kept for one node name; each field may be missing. */
  datatype Entry = Entry(gitUrl: Option<string>, lastUpdated: Option<string>, installTime: Option<string>)

  /** The three keys a metadata entry can hold: `git_url`, `last_updated`, `install_time`. */
  datatype Field = GitUrl | LastUpdated | InstallTime

  type Metadata = map<string, Entry>

  const NoEntry := Entry(None, None, None)

  /** `metadata.get(name, {})`. */
  function Lookup(meta: Metadata, name: string): Entry
  {
    if name in meta then meta[name] else NoEntry
  }

  /** `entry.get(field)`. */
  function Get(e: Entry, f: Field): Option<string>
  {
    match f
    case GitUrl => e.gitUrl
    case LastUpdated => e.lastUpdated
    case InstallTime => e.installTime
  }

  /** `entry[field] = value`. */
  function Put(e: Entry, f: Field, v: string): Entry
  {
    match f
    case GitUrl => e.(gitUrl := Some(v))
    case LastUpdated => e.(lastUpdated := Some(v))
    case InstallTime => e.(installTime := Some(v))
  }

  /** The create-on-first-write update every setter performs: an empty entry
      is made for a new name, then one field of it is set. */
  function Store(meta: Metadata, name: string, f: Field, v: string): Metadata
  {
    meta[name := Put(Lookup(meta, name), f, v)]
  }

  /** After a store, reading the field just written gives the value, and every
      other field of every name reads as before; the only key that can appear
      is the one written. */
  lemma StoreFrame(meta: Metadata, name: string, f: Field, v: string, k: string, g: Field)
    ensures Store(meta, name, f, v).Keys == meta.Keys + {name}
    ensures Get(Lookup(Store(meta, name, f, v), k), g)
         == if k == name && g == f then Some(v) else Get(Lookup(meta, k), g)
  {
  }

  /** The metadata half of `NodeManager`: the mapping from node name to entry,
      loaded once and changed in place by the setters. Persisting it to the
      JSON file after each change has no effect on this state. */
  class MetadataStore {
    var metadata: Metadata

    constructor (loaded: Metadata)
      ensures metadata == loaded
    {
      metadata := loaded;
    }

    /** `get_node_git_url`: the manual URL of a name, none when the name has
        no entry or its entry has no URL. */
    function GetNodeGitUrl(name: string): (r: Option<string>)
      reads this
      ensures name !in metadata ==> r == None
      ensures name in metadata ==> r == metadata[name].gitUrl
    {
      Get(Lookup(metadata, name), GitUrl)
    }

    /** `remove_node_metadata`: drops the entry of `name`; a name without an
        entry leaves the store as it was. */
    method RemoveNodeMetadata(name: string)
      modifies this
      ensures metadata == old(metadata) - {name}
      ensures name !in metadata
      ensures old(name !in metadata) ==> metadata == old(metadata)
    {
      if name in metadata {
        metadata := metadata - {name};
      }
    }

    /** `update_node_timestamp`: the entry named by the last component of
        `nodePath` gets `last_updated := now`; the stored value is returned. */
    method UpdateNodeTimestamp(nodePath: string, now: string) returns (stamp: string)
      modifies this
      ensures metadata == Store(old(metadata), Paths.Basename(nodePath), LastUpdated, now)
      ensures stamp == now
      ensures Lookup(metadata, Paths.Basename(nodePath)).lastUpdated == Some(stamp)
    {
      var name := Paths.Basename(nodePath);
      if name !in metadata {
        metadata := metadata[name := NoEntry];
      }
      metadata := metadata[name := metadata[name].(lastUpdated := Some(now))];
      stamp := now;
    }

    /** `set_node_install_time`: the entry of `name` gets `install_time := now`. */
    method SetNodeInstallTime(name: string, now: string) returns (stamp: string)
      modifies this
      ensures metadata == Store(old(metadata), name, InstallTime, now)
      ensures stamp == now
      ensures Lookup(metadata, name).installTime == Some(stamp)
    {
      if name !in metadata {
        metadata := metadata[name := NoEntry];
      }
      metadata := metadata[name := metadata[name].(installTime := Some(now))];
      stamp := now;
    }

    /** `set_node_git_url`: the entry of `name` gets `git_url := url`; a
        following `GetNodeGitUrl(name)` returns `url`. */
    method SetNodeGitUrl(name: string, url: string)
      modifies this
      ensures metadata == Store(old(metadata), name, GitUrl, url)
      ensures GetNodeGitUrl(name) == Some(url)
      ensures Lookup(metadata, name).lastUpdated == old(Lookup(metadata, name).lastUpdated)
      ensures Lookup(metadata, name).installTime == old(Lookup(metadata, name).installTime)
      ensures forall k :: k != name ==> Lookup(metadata, k) == old(Lookup(metadata, k))
    {
      if name !in metadata {
        metadata := metadata[name := NoEntry];
      }
      metadata := metadata[name := metadata[name].(gitUrl := Some(url))];
    }

    /** `scan_directory`: one `Node` per listed sub-directory that is neither
        hidden nor `__pycache__`, in listing order; a missing directory is an
        error. The existence probe and the listing are inputs. */
    method ScanDirectory(path: string, pathExists: bool, listing: seq<DirEntry>)
      returns (r: Result<seq<Node>, FsError>)
      ensures !pathExists ==> r == Err(NotFound(path))
      ensures pathExists ==> r == Ok(Scan(metadata, path, listing))
    {
      if !pathExists {
        return Err(NotFound(path));
      }
      var nodes: seq<Node> := [];
      var i := 0;
      while i < |listing|
        invariant 0 <= i <= |listing|
        invariant nodes == Scan(metadata, path, listing[..i])
      {
        var item := listing[i];
        assert listing[..i + 1] == listing[..i] + [item];
        if item.isDir && !StartsWith(item.name, ".") && item.name != "__pycache__" {
          var isGit := false;
          var remoteUrl: Option<string> := None;
          if item.probe.Repo? {
            isGit := true;
            remoteUrl := item.probe.origin;
          }
          if !isGit {
            var manualUrl := Lookup(metadata, item.name).gitUrl;
            if manualUrl.Some? && manualUrl.value != "" {
              remoteUrl := manualUrl;
              isGit := true;
            }
          }
          var entry := Lookup(metadata, item.name);
          nodes := nodes + [Node(item.name, Paths.Join(path, item.name), isGit, remoteUrl,
                                 entry.lastUpdated, entry.installTime)];
        }
        i := i + 1;
      }
      assert listing[..|listing|] == listing;
      return Ok(nodes);
    }
  }

  // ---------------------------------------------------------------------------
  // Proxy environment
  // ---------------------------------------------------------------------------

  const ProxyVars: set<string> := {"http_proxy", "https_proxy", "no_proxy"}

  /** Python's truth value of an optional string: present and not empty. */
  predicate Truthy(o: Option<string>)
  {
    o.Some? && o.value != ""
  }

  /** `_get_git_env`: a copy of the process environment, with the three proxy
      variables set when a proxy is given and everything else as it was. */
  function GitEnv(environ: map<string, string>, proxy: Option<string>): (env: map<string, string>)
    ensures !Truthy(proxy) ==> env == environ
    ensures Truthy(proxy) ==> env.Keys == environ.Keys + ProxyVars
    ensures Truthy(proxy) ==> env["http_proxy"] == proxy.value && env["https_proxy"] == proxy.value
    ensures Truthy(proxy) ==> env["no_proxy"] == "localhost,127.0.0.1"
    ensures forall k :: k in environ && k !in ProxyVars ==> k in env && env[k] == environ[k]
  {
    if Truthy(proxy) then
      environ["http_proxy" := proxy.value]["https_proxy" := proxy.value]["no_proxy" := "localhost,127.0.0.1"]
    else environ
  }

  // ---------------------------------------------------------------------------
  // Scanner
  // ---------------------------------------------------------------------------

  /** How an entry answers the repository probe: no `.git` marker; a marker
      but `git.Repo` fails (invalid repository or any other error); or a
      repository whose `origin` URL may be missing. */
  datatype GitProbe = NoMarker | BrokenRepo | Repo(origin: Option<string>)

  /** One name returned by `os.listdir`, with what `isdir` and the `.git`
      probe say about it. */
  datatype DirEntry = DirEntry(name: string, isDir: bool, probe: GitProbe)

  /** The record the scan produces for one node directory. */
  datatype Node = Node(name: string, path: string, isGitRepo: bool, remoteUrl: Option<string>,
                       lastUpdateTime: Option<string>, installTime: Option<string>)

  datatype FsError = NotFound(path: string) | PathConflict(path: string) | CommandFailed(path: string)

  /** The entries the scan keeps: directories, not hidden, not the cache directory. */
  predicate Listed(e: DirEntry)
  {
    e.isDir && !StartsWith(e.name, ".") && e.name != "__pycache__"
  }

  /** The node built for one kept entry: a repository is git with its origin
      URL; otherwise a non-empty manual URL makes it git with that URL; the
      timestamps come from the store under the entry's name. */
  function MakeNode(meta: Metadata, root: string, e: DirEntry): (n: Node)
    ensures n.name == e.name && n.path == Paths.Join(root, e.name)
    ensures e.probe.Repo? ==> n.isGitRepo && n.remoteUrl == e.probe.origin
    ensures !e.probe.Repo? && Truthy(Lookup(meta, e.name).gitUrl) ==>
              n.isGitRepo && n.remoteUrl == Lookup(meta, e.name).gitUrl
    ensures !e.probe.Repo? && !Truthy(Lookup(meta, e.name).gitUrl) ==>
              !n.isGitRepo && n.remoteUrl == None
    ensures n.lastUpdateTime == Lookup(meta, e.name).lastUpdated
    ensures n.installTime == Lookup(meta, e.name).installTime
  {
    var entry := Lookup(meta, e.name);
    var isGit := e.probe.Repo? || Truthy(entry.gitUrl);
    var url := if e.probe.Repo? then e.probe.origin else if Truthy(entry.gitUrl) then entry.gitUrl else None;
    Node(e.name, Paths.Join(root, e.name), isGit, url, entry.lastUpdated, entry.installTime)
  }

  /** A node that has a URL is always treated as git. */
  predicate WellFormed(n: Node)
  {
    n.remoteUrl.Some? ==> n.isGitRepo
  }

  /** The scan of a listing, built entry by entry as the loop does. */
  function Scan(meta: Metadata, root: string, listing: seq<DirEntry>): seq<Node>
    decreases |listing|
  {
    if listing == [] then []
    else
      var init := Scan(meta, root, listing[..|listing| - 1]);
      var e := listing[|listing| - 1];
      if Listed(e) then init + [MakeNode(meta, root, e)] else init
  }

  /** Number of kept entries in a listing. */
  function CountListed(listing: seq<DirEntry>): nat
    decreases |listing|
  {
    if listing == [] then 0
    else CountListed(listing[..|listing| - 1]) + (if Listed(listing[|listing| - 1]) then 1 else 0)
  }

  /** The scan yields exactly as many nodes as there are kept entries. */
  lemma {:induction false} ScanLength(meta: Metadata, root: string, listing: seq<DirEntry>)
    ensures |Scan(meta, root, listing)| == CountListed(listing)
    decreases |listing|
  {
    if listing != [] {
      ScanLength(meta, root, listing[..|listing| - 1]);
    }
  }

  /** The kept entry at index `i` becomes the node at position "number of kept
      entries before `i`". With ScanLength and CountGrows this says the scan
      is the kept entries, each once, in listing order. */
  lemma {:induction false} ScanAt(meta: Metadata, root: string, listing: seq<DirEntry>, i: nat)
    requires i < |listing| && Listed(listing[i])
    ensures CountListed(listing[..i]) < |Scan(meta, root, listing)|
    ensures Scan(meta, root, listing)[CountListed(listing[..i])] == MakeNode(meta, root, listing[i])
    decreases |listing|
  {
    var init := listing[..|listing| - 1];
    if i == |listing| - 1 {
      assert listing[..i] == init;
      ScanLength(meta, root, init);
    } else {
      assert init[..i] == listing[..i];
      ScanAt(meta, root, init, i);
    }
  }

  /** A kept entry moves the position of every later one forward. */
  lemma {:induction false} CountGrows(listing: seq<DirEntry>, i: nat, j: nat)
    requires i < j <= |listing| && Listed(listing[i])
    ensures CountListed(listing[..i]) < CountListed(listing[..j])
    decreases j
  {
    assert listing[..j][..j - 1] == listing[..j - 1];
    if j > i + 1 {
      CountGrows(listing, i, j - 1);
    } else {
      assert listing[..j - 1] == listing[..i];
    }
  }

  /** Every scanned node is the node of some kept entry of the listing. */
  lemma {:induction false} ScanOnlyListed(meta: Metadata, root: string, listing: seq<DirEntry>, n: Node)
    requires n in Scan(meta, root, listing)
    ensures exists i :: 0 <= i < |listing| && Listed(listing[i]) && n == MakeNode(meta, root, listing[i])
    decreases |listing|
  {
    var init := listing[..|listing| - 1];
    var e := listing[|listing| - 1];
    if n in Scan(meta, root, init) {
      ScanOnlyListed(meta, root, init, n);
      var i :| 0 <= i < |init| && Listed(init[i]) && n == MakeNode(meta, root, init[i]);
      assert listing[i] == init[i];
    } else {
      assert Listed(e) && n == MakeNode(meta, root, e);
    }
  }

  /** Scanned nodes respect the invariant that a URL implies git. */
  lemma ScanWellFormed(meta: Metadata, root: string, listing: seq<DirEntry>, n: Node)
    requires n in Scan(meta, root, listing)
    ensures WellFormed(n)
  {
    ScanOnlyListed(meta, root, listing, n);
  }

  predicate DistinctEntryNames(listing: seq<DirEntry>)
  {
    forall i, j :: 0 <= i < j < |listing| ==> listing[i].name != listing[j].name
  }

  predicate UniqueNames(nodes: seq<Node>)
  {
    forall i, j :: 0 <= i < j < |nodes| ==> nodes[i].name != nodes[j].name
  }

  /** A directory listing has distinct names, so the scan's node names are distinct. */
  lemma {:induction false} ScanUniqueNames(meta: Metadata, root: string, listing: seq<DirEntry>)
    requires DistinctEntryNames(listing)
    ensures UniqueNames(Scan(meta, root, listing))
    decreases |listing|
  {
    if listing != [] {
      var init := listing[..|listing| - 1];
      var e := listing[|listing| - 1];
      assert DistinctEntryNames(init);
      ScanUniqueNames(meta, root, init);
      if Listed(e) {
        var s := Scan(meta, root, init);
        forall k | 0 <= k < |s|
          ensures s[k].name != e.name
        {
          ScanOnlyListed(meta, root, init, s[k]);
        }
      }
    }
  }

  // ---------------------------------------------------------------------------
  // Guards of clone, copy and delete
  // ---------------------------------------------------------------------------

  /** What exists at a path: an empty directory or a populated one. */
  datatype PathState = EmptyDir | Populated

  /** The part of the file system the operations touch: the paths that
      exist, and whether each is empty. */
  type Disk = map<string, PathState>

  /** `clone_node`: refuses a target that exists and is not empty, before
      anything runs; otherwise the clone either fails (nothing changes) or
      leaves a populated directory at the target. */
  function CloneNode(disk: Disk, target: string, cloneSucceeds: bool): (r: Result<Disk, FsError>)
    ensures target in disk && disk[target] == Populated ==> r == Err(PathConflict(target))
    ensures r.Ok? <==> (target !in disk || disk[target].EmptyDir?) && cloneSucceeds
    ensures r.Ok? ==> r.value == disk[target := Populated]
  {
    if target in disk && disk[target] == Populated then Err(PathConflict(target))
    else if !cloneSucceeds then Err(CommandFailed(target))
    else Ok(disk[target := Populated])
  }

  /** `copy_node` (and the `copytree` of the copy action): refuses an existing
      target; a missing source fails in `copytree`; otherwise the target
      becomes a copy of the source. */
  function CopyNode(disk: Disk, source: string, target: string): (r: Result<Disk, FsError>)
    ensures target in disk ==> r == Err(PathConflict(target))
    ensures target !in disk && source !in disk ==> r == Err(NotFound(source))
    ensures r.Ok? ==> source in disk && target !in disk
    ensures r.Ok? ==> r.value.Keys == disk.Keys + {target} && r.value[target] == disk[source]
    ensures r.Ok? ==> forall p :: p in disk ==> r.value[p] == disk[p]
  {
    if target in disk then Err(PathConflict(target))
    else if source !in disk then Err(NotFound(source))
    else Ok(disk[target := disk[source]])
  }

  /** `delete_node`: a missing path is a no-op; otherwise the path is gone
      and nothing else changes. */
  function DeleteNode(disk: Disk, path: string): (r: Disk)
    ensures path !in r
    ensures path !in disk ==> r == disk
    ensures forall p :: p != path ==> (p in r <==> p in disk)
    ensures forall p :: p in r ==> r[p] == disk[p]
  {
    if path !in disk then disk else disk - {path}
  }

  // ---------------------------------------------------------------------------
  // Upstream check
  // ---------------------------------------------------------------------------

  /** What fetching and comparing with the tracking branch finds: the fetch
      or the repository failed, the head is detached, the branch has no
      tracking branch, or it tracks one that is `behind` commits ahead. */
  datatype UpstreamProbe = ProbeFailed | Detached | NoTracking | Tracking(behind: nat)

  /** `check_update`: true exactly when upstream has commits the local branch
      lacks; every undeterminable case answers false and nothing is raised. */
  function CheckUpdate(p: UpstreamProbe): (r: bool)
    ensures r <==> p.Tracking? && p.behind > 0
    ensures p.Detached? || p.NoTracking? || p.ProbeFailed? ==> !r
  {
    match p
    case Tracking(n) => n > 0
    case _ => false
  }

  // ---------------------------------------------------------------------------
  // Backup
  // ---------------------------------------------------------------------------

  /** One element of the backup list: name, URL and git flag. */
  datatype BackupRecord = BackupRecord(name: string, url: string, isGit: bool)

  /** A node enters the backup when its URL is present, not empty and not "-". */
  predicate HasBackupUrl(n: Node)
  {
    Truthy(n.remoteUrl) && n.remoteUrl.value != "-"
  }

  function RecordOf(n: Node): BackupRecord
    requires HasBackupUrl(n)
  {
    BackupRecord(n.name, n.remoteUrl.value, n.isGitRepo)
  }

  /** The backup list of a node list, built node by node as the loop does. */
  function Backup(nodes: seq<Node>): seq<BackupRecord>
    decreases |nodes|
  {
    if nodes == [] then []
    else
      var init := Backup(nodes[..|nodes| - 1]);
      var n := nodes[|nodes| - 1];
      if HasBackupUrl(n) then init + [RecordOf(n)] else init
  }

  function CountBackedUp(nodes: seq<Node>): nat
    decreases |nodes|
  {
    if nodes == [] then 0
    else CountBackedUp(nodes[..|nodes| - 1]) + (if HasBackupUrl(nodes[|nodes| - 1]) then 1 else 0)
  }

  /** `create_backup`: collects the records and returns how many there are.
      The source also writes the records as JSON to `output_path` itself;
      that file write is not modelled, so the records are returned instead. */
  method CreateBackup(nodes: seq<Node>) returns (records: seq<BackupRecord>, count: nat)
    ensures records == Backup(nodes)
    ensures count == |records| == CountBackedUp(nodes)
  {
    records := [];
    var i := 0;
    while i < |nodes|
      invariant 0 <= i <= |nodes|
      invariant records == Backup(nodes[..i])
    {
      var node := nodes[i];
      assert nodes[..i + 1] == nodes[..i] + [node];
      if node.remoteUrl.Some? && node.remoteUrl.value != "" && node.remoteUrl.value != "-" {
        records := records + [BackupRecord(node.name, node.remoteUrl.value, node.isGitRepo)];
      }
      i := i + 1;
    }
    assert nodes[..|nodes|] == nodes;
    BackupLength(nodes);
    count := |records|;
  }

  lemma {:induction false} BackupLength(nodes: seq<Node>)
    ensures |Backup(nodes)| == CountBackedUp(nodes)
    decreases |nodes|
  {
    if nodes != [] {
      BackupLength(nodes[..|nodes| - 1]);
    }
  }

  /** The node at index `i` with a usable URL is the record at position "number
      of such nodes before `i`": the backup keeps those nodes, in order. */
  lemma {:induction false} BackupAt(nodes: seq<Node>, i: nat)
    requires i < |nodes| && HasBackupUrl(nodes[i])
    ensures CountBackedUp(nodes[..i]) < |Backup(nodes)|
    ensures Backup(nodes)[CountBackedUp(nodes[..i])] == RecordOf(nodes[i])
    decreases |nodes|
  {
    var init := nodes[..|nodes| - 1];
    if i == |nodes| - 1 {
      assert nodes[..i] == init;
      BackupLength(init);
    } else {
      assert init[..i] == nodes[..i];
      BackupAt(init, i);
    }
  }

  /** A usable node moves the position of every later one forward, so the
      records keep the order of the nodes. */
  lemma {:induction false} CountBackedUpGrows(nodes: seq<Node>, i: nat, j: nat)
    requires i < j <= |nodes| && HasBackupUrl(nodes[i])
    ensures CountBackedUp(nodes[..i]) < CountBackedUp(nodes[..j])
    decreases j
  {
    assert nodes[..j][..j - 1] == nodes[..j - 1];
    if j > i + 1 {
      CountBackedUpGrows(nodes, i, j - 1);
    } else {
      assert nodes[..j - 1] == nodes[..i];
    }
  }

  /** Every record comes from a node with a usable URL. */
  lemma {:induction false} BackupOnlyUsable(nodes: seq<Node>, rec: BackupRecord)
    requires rec in Backup(nodes)
    ensures exists i :: 0 <= i < |nodes| && HasBackupUrl(nodes[i]) && rec == RecordOf(nodes[i])
    decreases |nodes|
  {
    var init := nodes[..|nodes| - 1];
    if rec in Backup(init) {
      BackupOnlyUsable(init, rec);
      var i :| 0 <= i < |init| && HasBackupUrl(init[i]) && rec == RecordOf(init[i]);
      assert nodes[i] == init[i];
    }
  }
}
