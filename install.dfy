/** Installing a node from a clone URL (`git_install_logic` in gui.py): the
    directory name is inferred from the URL and the clone goes under the
    custom-nodes root. */
module Install {
  import opened Wrappers
  import opened Text
  import Paths
  import NodeManager

  /** The install name: the last "/"-separated segment of the URL with one
      trailing ".git" removed. */
  function InstallName(url: string): (name: string)
    ensures forall i :: 0 <= i < |name| ==> name[i] != '/'
    ensures EndsWith(AfterLast(url, {'/'}), ".git") ==> name + ".git" == AfterLast(url, {'/'})
    ensures !EndsWith(AfterLast(url, {'/'}), ".git") ==> name == AfterLast(url, {'/'})
  {
    var segment := AfterLast(url, {'/'});
    if EndsWith(segment, ".git") then segment[..|segment| - 4] else segment
  }

  /** A URL ending in "/<stem>.git" installs as `stem`; only one ".git" goes. */
  lemma InstallNameStripsSuffix(prefix: string, stem: string)
    requires forall i :: 0 <= i < |stem| ==> stem[i] != '/'
    ensures InstallName(prefix + "/" + stem + ".git") == stem
  {
    var tail := stem + ".git";
    assert prefix + "/" + stem + ".git" == prefix + ['/'] + tail;
    AfterLastOfJoined(prefix, '/', tail, {'/'});
    assert tail[..|tail| - 4] == stem;
  }

  /** A URL ending in "/<stem>" without the suffix installs as `stem`. */
  lemma InstallNameKeepsPlain(prefix: string, stem: string)
    requires forall i :: 0 <= i < |stem| ==> stem[i] != '/'
    requires !EndsWith(stem, ".git")
    ensures InstallName(prefix + "/" + stem) == stem
  {
    assert prefix + "/" + stem == prefix + ['/'] + stem;
    AfterLastOfJoined(prefix, '/', stem, {'/'});
  }

  lemma WidgetNodesExample()
    ensures InstallName("https://host/group/widget-nodes.git") == "widget-nodes"
  {
    assert "https://host/group/widget-nodes.git" == "https://host/group" + "/" + "widget-nodes" + ".git";
    InstallNameStripsSuffix("https://host/group", "widget-nodes");
  }

  datatype InstallOutcome = RootNotSet | Installed(disk: NodeManager.Disk) | Failed(error: NodeManager.FsError)

  /** Some tracked path lies strictly inside the directory `dir`, which is
      then not empty. */
  predicate HoldsEntries(disk: NodeManager.Disk, dir: string)
  {
    exists p :: p in disk && |dir| < |p| && p[..|dir|] == dir
  }

  /** The directory `os.path.join(root, name)` addresses. An empty name and
      "." both address the root itself, written with its trailing separator;
      every other name is joined by the rules of `Paths.Join`, so a name with
      a drive may replace the root altogether. */
  function InstallDir(root: string, name: string): (dir: string)
    ensures name == "" || name == "." ==> dir == Paths.Join(root, "")
    ensures Paths.IsPlainName(name) && name != "." ==> dir == Paths.Join(root, name)
    ensures Paths.HasDrive(name) ==> dir == Paths.Join(root, name)
  {
    if name == "" || name == "." then Paths.Join(root, "") else Paths.Join(root, name)
  }

  /** `os.path.exists(dir) and os.listdir(dir)`: the directory is a populated
      node, or some tracked path lies inside it. */
  predicate NotEmpty(disk: NodeManager.Disk, dir: string)
  {
    (dir in disk && disk[dir].Populated?) || HoldsEntries(disk, Paths.Join(dir, ""))
  }

  /** `git_install_logic`: with no custom-nodes root nothing happens;
      otherwise the URL is cloned into `InstallDir(root, <install name>)`
      under the guard of `clone_node`, which refuses a directory that is not
      empty. A name ".." addresses the parent of the root, which is not empty
      as soon as the root holds a node. No install time is recorded. */
  function GitInstall(disk: NodeManager.Disk, root: string, url: string, cloneSucceeds: bool): (r: InstallOutcome)
    ensures root == "" <==> r == RootNotSet
    ensures r.Installed? ==> r.disk == disk[InstallDir(root, InstallName(url)) := NodeManager.Populated]
    ensures root != "" && NotEmpty(disk, InstallDir(root, InstallName(url)))
            ==> r == Failed(NodeManager.PathConflict(InstallDir(root, InstallName(url))))
    ensures root != "" && InstallName(url) == ".." && HoldsEntries(disk, Paths.Join(root, ""))
            ==> r == Failed(NodeManager.PathConflict(InstallDir(root, InstallName(url))))
    ensures r.Installed? <==>
      && root != ""
      && !NotEmpty(disk, InstallDir(root, InstallName(url)))
      && !(InstallName(url) == ".." && HoldsEntries(disk, Paths.Join(root, "")))
      && cloneSucceeds
  {
    if root == "" then RootNotSet
    else
      var name := InstallName(url);
      var dir := InstallDir(root, name);
      if NotEmpty(disk, dir) || (name == ".." && HoldsEntries(disk, Paths.Join(root, ""))) then
        Failed(NodeManager.PathConflict(dir))
      else
        match NodeManager.CloneNode(disk, dir, cloneSucceeds)
        case Ok(d) => Installed(d)
        case Err(e) => Failed(e)
  }

  /** The root joined with a plain node name extends the root joined with
      the empty name, and joining the empty name again changes nothing. */
  lemma JoinEmptyPrefix(root: string, node: string)
    requires Paths.IsPlainName(node)
    ensures Paths.Join(Paths.Join(root, ""), "") == Paths.Join(root, "")
    ensures |Paths.Join(root, "")| < |Paths.Join(root, node)|
    ensures Paths.Join(root, node)[..|Paths.Join(root, "")|] == Paths.Join(root, "")
  {
    var dir := Paths.Join(root, "");
    if Paths.NeedsNoSep(root) {
      assert dir == root;
      assert Paths.Join(root, node) == root + node;
    } else {
      assert dir == root + "\\";
      assert dir[|dir| - 1] in Paths.Seps;
      assert Paths.Join(root, node) == dir + node;
    }
  }

  /** A URL whose last segment is empty ("…/") or "." clones into the
      custom-nodes root itself, which `clone_node` refuses once any node is
      installed. */
  lemma RootTargetRefused(disk: NodeManager.Disk, root: string, prefix: string, last: string, node: string, cloneSucceeds: bool)
    requires root != "" && (last == "" || last == ".")
    requires Paths.IsPlainName(node) && Paths.Join(root, node) in disk
    ensures GitInstall(disk, root, prefix + "/" + last, cloneSucceeds)
         == Failed(NodeManager.PathConflict(Paths.Join(root, "")))
  {
    InstallNameKeepsPlain(prefix, last);
    JoinEmptyPrefix(root, node);
    assert HoldsEntries(disk, Paths.Join(Paths.Join(root, ""), ""));
  }

  /** A URL ending in "/.." clones into the parent of the root, which holds
      the root and is refused once any node is installed. */
  lemma ParentTargetRefused(disk: NodeManager.Disk, root: string, prefix: string, node: string, cloneSucceeds: bool)
    requires root != ""
    requires Paths.IsPlainName(node) && Paths.Join(root, node) in disk
    ensures GitInstall(disk, root, prefix + "/..", cloneSucceeds)
         == Failed(NodeManager.PathConflict(Paths.Join(root, "..")))
  {
    var url := prefix + "/..";
    assert url == prefix + "/" + "..";
    InstallNameKeepsPlain(prefix, "..");
    JoinEmptyPrefix(root, node);
    var p := Paths.Join(root, node);
    assert p in disk && |Paths.Join(root, "")| < |p| && p[..|Paths.Join(root, "")|] == Paths.Join(root, "");
    assert HoldsEntries(disk, Paths.Join(root, ""));
    assert Paths.IsPlainName("..");
    assert InstallDir(root, InstallName(url)) == Paths.Join(root, "..");
  }

  /** A local path with a drive, such as `D:\repos\MyNode`, contains no "/",
      so the whole of it is the install name, and `os.path.join` lets it
      replace the root: an installed node there is refused. */
  lemma LocalRepositoryRefused(disk: NodeManager.Disk, root: string, url: string, cloneSucceeds: bool)
    requires root != "" && forall i :: 0 <= i < |url| ==> url[i] != '/'
    requires Paths.HasDrive(url) && (Paths.IsRooted(url) || Paths.Drive(url) != Paths.Drive(root))
    requires !EndsWith(url, ".git")
    requires url in disk && disk[url] == NodeManager.Populated
    ensures GitInstall(disk, root, url, cloneSucceeds) == Failed(NodeManager.PathConflict(url))
  {
    AfterLastNone(url, {'/'});
    assert InstallName(url) == url;
    assert InstallDir(root, url) == url;
  }

  /** A URL ending in "/<stem>.git", with `stem` a plain directory name,
      installs into `root\stem` whenever that directory is absent or empty
      and the clone succeeds. */
  lemma InstallIntoFreeDir(disk: NodeManager.Disk, root: string, prefix: string, stem: string)
    requires root != "" && Paths.IsPlainName(stem) && stem != "." && stem != ".."
    requires !NotEmpty(disk, Paths.Join(root, stem))
    ensures GitInstall(disk, root, prefix + "/" + stem + ".git", true)
         == Installed(disk[Paths.Join(root, stem) := NodeManager.Populated])
  {
    InstallNameStripsSuffix(prefix, stem);
  }
}
