# ComfyUI custom-node manager: a Dafny model

This project models the core of a desktop tool that manages the custom nodes
of a ComfyUI installation: the node directories under `custom_nodes`.

`node_manager.py` keeps a metadata store per node: a manually set git
URL, a last-update stamp and an install stamp. It also:

- scans a node directory into `Node` records;
- builds the proxy environment for git;
- guards cloning, copying and deleting;
- checks a repository for upstream commits;
- filters nodes for a backup.

`gui.py` builds on these. It:

- turns the proxy entry into a URL;
- infers a node's name from a git URL when installing;
- verifies a manually entered git URL by comparing file sets (a Jaccard
  similarity with a 0.5 threshold);
- runs the management tab: a filtered table, the update check with its
  status cache, updating and deleting;
- runs the migration tab: a filtered table of an old installation, migrating
  by clone, and copying.

Modules:

- `Wrappers`: `Option` and `Result`.
- `Text`: the Python string operations the core uses, written out:
  - `str.strip` over Python's whitespace set;
  - `startswith` and `endswith`;
  - substring `in`;
  - ASCII `lower`;
  - `split(sep)[-1]`.
- `Paths`: Windows `os.path.join` and `os.path.basename`, with `/` and `\` as separators.
- `NodeManager`:
  - the `MetadataStore` class, whose methods update its `metadata` map;
  - the scan;
  - the git environment;
  - the clone, copy and delete guards over an abstract file system `Disk`;
  - the upstream check;
  - the backup filter.
- `GuiCommon`: the filter value `全部`, the status `未知` and valid row selections, shared by both tabs.
- `Proxy`, `Install`, `UrlVerify`, `ManageView` and `MigrateView`: the logic of `gui.py`.
  - The two tabs are classes (`ManageTab`, `MigrateTab`).
  - Their fields are the node lists, the status cache and the table rows that the handlers update.

Outside effects are parameters:

- What a directory listing contains and what git finds in each entry (`DirEntry`, `GitProbe`).
- Whether a clone or pull succeeds.
- What the update check answered.
- What the user answered in a dialog.
- The current time as a string.

The file system is a map from path to `EmptyDir` or `Populated`. It is tracked per node path: the files inside a node directory, which `rmtree` and `copytree` act on, are not represented; deleting or copying a node removes or adds its one path. A directory counts as non-empty when some tracked path lies inside it; this is how the custom-nodes root itself is judged when a URL ending in `/` or `/.` makes it the clone target, and how its parent is judged for a URL ending in `/..`.

Paths follow Python's `ntpath` rules for joining: a name with a drive letter (`D:\repos\MyNode`) replaces the root as a whole, a name starting with a separator keeps only the root's drive, and a plain name is appended after a `\` unless the root already ends in a separator or is empty or a bare drive.

Where the tool's documented behaviour and its code differ, the model follows the code:

- Installing a node from a URL (`git_install_logic`) records no install
  time, and nothing in `gui.py` calls `set_node_install_time`.
  `Install.GitInstall` therefore changes only the disk.
- `create_backup` is modelled as written, although `gui.py` never calls it.
- The status "检查失败" can only appear when the update check raises. It
  never does, since `check_update` catches every exception and returns
  `False` (`ManageView.AfterCheckNeverFails`).
- A successful pull stamps `last_updated` even when it brought no new
  commits: `update_selected_logic` calls `update_node_timestamp` after every
  pull that does not raise (`ManageView.AfterUpdateRecords`).

## Model

| member | source | states |
|---|---|---|
| NodeManager.StoreFrame | node_manager.py:53-79 | storing one field of one node creates the entry when missing, sets that field and leaves every other field of that entry and every other node's entry unchanged |
| NodeManager.MetadataStore.GetNodeGitUrl | node_manager.py:81-82 | the manual URL of a node, `None` when the node has no entry or the entry has no URL |
| NodeManager.MetadataStore.RemoveNodeMetadata | node_manager.py:45-51 | the node's entry is gone, all others stay; removing an absent node changes nothing |
| NodeManager.MetadataStore.UpdateNodeTimestamp | node_manager.py:53-62 | the entry keyed by the basename of the node path gets `last_updated = now`, other fields and nodes are kept, and the stamp is returned |
| NodeManager.MetadataStore.SetNodeInstallTime | node_manager.py:64-72 | the node's entry gets `install_time = now`, the rest is kept, and the stamp is returned |
| NodeManager.MetadataStore.SetNodeGitUrl | node_manager.py:74-79 | afterwards `GetNodeGitUrl` returns the URL; the other fields of the entry and all other entries are unchanged |
| NodeManager.MetadataStore.ScanDirectory | node_manager.py:93-143 | a missing path is a not-found error; otherwise the loop returns exactly the node list `Scan` specifies for the listing |
| NodeManager.GitEnv | node_manager.py:84-91 | with a truthy proxy, `http_proxy` and `https_proxy` are the proxy and `no_proxy` is `localhost,127.0.0.1`, every other variable kept; otherwise the environment is unchanged |
| NodeManager.MakeNode | node_manager.py:104-142 | a repository entry is git with its origin URL (none when origin is missing); otherwise a truthy manual URL makes it git with that URL; otherwise not git and no URL; timestamps come from the metadata |
| NodeManager.ScanLength | node_manager.py:103-107 | the scan yields one node per listed entry: directories not starting with `.` and not `__pycache__` |
| NodeManager.ScanAt | node_manager.py:103-142 | each listed entry's node sits at the position counting the listed entries before it, in listing order |
| NodeManager.CountGrows | node_manager.py:103-107 | a listed entry before a later position raises the count of listed entries, so positions are distinct |
| NodeManager.ScanOnlyListed | node_manager.py:103-142 | every scanned node is the node of some listed entry |
| NodeManager.ScanWellFormed | node_manager.py:109-133 | a scanned node with a remote URL is marked as a git repository |
| NodeManager.ScanUniqueNames | node_manager.py:103-142 | distinct entry names give nodes with distinct names |
| NodeManager.CloneNode | node_manager.py:155-179 | a populated target is refused before cloning; the clone succeeds exactly when the target is absent or empty and git succeeds, and then the target is populated |
| NodeManager.CopyNode | node_manager.py:181-188 | an existing target is refused and a missing source fails; a copy adds only the target, with the source's state, and keeps every existing path |
| NodeManager.DeleteNode | node_manager.py:190-205 | a missing path is a no-op; otherwise only that path is gone |
| NodeManager.CheckUpdate | node_manager.py:208-249 | true exactly when the fetch works, HEAD is on a branch with a tracking branch and that branch is ahead by at least one commit |
| NodeManager.CreateBackup | node_manager.py:338-354 | the records are the backup of the nodes and the returned count is their number |
| NodeManager.BackupLength | node_manager.py:343-350 | the backup has one record per node whose URL is truthy and not `-` |
| NodeManager.BackupAt | node_manager.py:343-350 | each such node's record (name, URL, git flag) sits at the position counting such nodes before it |
| NodeManager.CountBackedUpGrows | node_manager.py:343-350 | a usable node before a later position raises the count of usable nodes, so records keep node order |
| NodeManager.BackupOnlyUsable | node_manager.py:343-350 | every record comes from a node with a usable URL |
| Paths.Join | node_manager.py:104 | `os.path.join` on Windows: a relative name is appended directly to an empty root, a root ending in a separator or a bare drive, and after `\` to any other root; a name with another drive, or with a drive and a root, replaces the root; a name with the root's drive but no root is appended to the root; a rooted name without a drive keeps only the root's drive |
| Paths.JoinRelative | gui.py:462-470 | appending a relative subdirectory path to the walk base, as `os.walk` does for the directories it visits: directly after an empty root or one ending in a separator or a bare drive, after `\` otherwise |
| Paths.AbsoluteNameReplacesRoot | node_manager.py:104 | a name with a drive letter and a root, such as `D:\repos\MyNode`, is the joined path whatever the root |
| Paths.RootedNameKeepsDrive | node_manager.py:104 | a name starting with a separator joined to `C:\cn` keeps only the drive `C:` |
| Paths.Basename | node_manager.py:54 | the basename is the whole last component after the drive: a suffix of the path with no separator, no longer than the path less its drive, and preceded by a separator whenever it is shorter than that |
| Paths.BasenameOfJoin | node_manager.py:53-54 | the basename of a node path built from a root and a plain name is that name |
| Paths.JoinInjective | gui.py:789-792 | different plain names under one root give different node paths |
| Text.Strip | gui.py:107 | the stripped text is empty exactly when the input is all whitespace; otherwise it is the contiguous slice between leading and trailing whitespace, starting and ending with non-whitespace |
| Text.StripIdempotent | gui.py:107 | stripping twice is stripping once |
| Proxy.ProxyUrl | gui.py:106-114 | `None` exactly when the entry is blank; a stripped entry starting with `http` is returned as is, any other gets the `http://127.0.0.1:` prefix |
| Proxy.ProxyUrlShape | gui.py:106-114 | a proxy URL is non-blank, starts with `http` and has no surrounding whitespace |
| Proxy.ProxyUrlIdempotent | gui.py:106-114 | feeding a proxy URL back as the entry gives the same URL |
| Proxy.PortExample | gui.py:113-114 | the entry ` 7890 ` becomes `http://127.0.0.1:7890` |
| Install.InstallName | gui.py:928-930 | the name has no `/`; it is the last path segment of the URL, less one trailing `.git` |
| Install.InstallNameStripsSuffix | gui.py:929-930 | `…/stem.git` installs as `stem` |
| Install.InstallNameKeepsPlain | gui.py:929-930 | `…/stem` without `.git` installs as `stem` |
| Install.WidgetNodesExample | gui.py:929-930 | `https://host/group/widget-nodes.git` installs as `widget-nodes` |
| Install.InstallDir | gui.py:932 | the target of `os.path.join(root, name)`: an empty name or `.` is the root itself, with its trailing separator; a plain name or a name with a drive is joined by `Paths.Join` |
| Install.GitInstall | gui.py:922-942 | no root means nothing happens; the install succeeds exactly when there is a root, the target directory is not a populated node and holds no tracked path, the name is not `..` while the root holds a node, and the clone succeeds; then only the target is populated; a non-empty target is a conflict on that target, and so is `..` when the root holds a node |
| Install.RootTargetRefused | gui.py:929-942 | a URL ending in `/` or `/.` clones into the custom-nodes root itself, which `clone_node` refuses once any node is installed |
| Install.ParentTargetRefused | gui.py:929-942 | a URL ending in `/..` clones into the parent of the root, which is refused once any node is installed |
| Install.LocalRepositoryRefused | gui.py:929-942 | a URL with no `/` that carries a drive, such as `D:\repos\MyNode`, is its own install name and replaces the root, so a populated directory there is refused |
| Install.InstallIntoFreeDir | gui.py:922-942 | a URL ending in `/stem.git` with a plain `stem` installs into `root\stem` when that directory is absent or empty and the clone succeeds |
| UrlVerify.LocalOfFilesMembers | gui.py:465-467 | a path is collected from one walked directory exactly when it is the relative path of a file there that is not `.pyc` while the directory's root does not contain `.git` |
| UrlVerify.LocalFilesMembers | gui.py:461-467 | a path is in the local file set exactly when some walked directory has such a file |
| UrlVerify.CollectLocalFiles | gui.py:461-467 | the nested loop collects exactly the local file set |
| UrlVerify.CollectRemoteFiles | gui.py:469-475 | the nested loop collects exactly the remote file set: all files (`.pyc` included) of directories whose root does not contain `.git` |
| UrlVerify.AllOfFilesMembers | gui.py:474-475 | a path is collected from one remote directory exactly when it is the relative path of one of its files |
| UrlVerify.RemoteFilesMembers | gui.py:469-475 | a path is in the remote file set exactly when some walked file (`.pyc` included) under a root not containing `.git` has it as its relative path |
| UrlVerify.DotGitBaseCollectsNothing | gui.py:445-475 | a base path containing `.git` yields empty local and remote sets |
| UrlVerify.LocalOfDirEmpty | gui.py:466 | a directory whose root contains `.git` contributes no file |
| UrlVerify.Similarity | gui.py:478-479 | the Jaccard index lies between 0 and 1 and is 0 for two empty sets |
| UrlVerify.SimilarityOne | gui.py:478-479 | the similarity is 1 exactly when the sets are equal and not empty |
| UrlVerify.HalfIsNotAMatch | gui.py:479-481 | `{a,b,c}` against `{a,b,d}` is 0.5, which is not a match (the threshold is strict) |
| UrlVerify.Associates | gui.py:481-510 | a match stores the URL; a non-match or a failed clone stores it exactly when the user confirms |
| UrlVerify.VerifyAndSetGitUrl | gui.py:441-510 | the local walk starts at `root\name` and the clone's walk at `temp\comfynode_sync_validate\name`; a failed clone gives the error verdict, otherwise the similarity of the two collected sets; the store gets the URL exactly when `Associates` holds and is unchanged otherwise |
| UrlVerify.DotGitNameNeverMatches | gui.py:445-475 | for a node whose name contains `.git` (for example `x.git`), both walk bases contain it, so the similarity is 0 and only the user's confirmation can set the URL |
| ManageView.ManageRowsLength | gui.py:650-677 | the table has one row per node that passes the name, type and status filters |
| ManageView.ManageRowsAt | gui.py:650-684 | each passing node's row (name, type, URL or `-`, cached status or `未知`, last-update message) sits at the position counting passing nodes before it |
| ManageView.CountShownGrows | gui.py:650-684 | a passing node before a later position raises the count of passing nodes, so rows keep node order |
| ManageView.ManageRowsOnlyShown | gui.py:650-677 | every row comes from a passing node; a type or status filter other than `全部` shows only rows with that value |
| ManageView.ManageTab.UpdateManageList | gui.py:642-684 | the rebuilt table is exactly the filtered rows of the current nodes |
| ManageView.CheckedStatus | gui.py:738-754 | a node ends `不适用` exactly when it is not git, `有更新` / `已是最新` exactly for a git node whose check answered true / false, `检查失败` exactly when the check raised; never `检查中...` or `未知` |
| ManageView.AfterCheckFinal | gui.py:737-756 | after the check every node has a final status; none stays `检查中...` |
| ManageView.AfterCheckOthers | gui.py:737-756 | names of no current node keep their cached status |
| ManageView.AfterCheckOwn | gui.py:737-756 | with distinct names each node ends with its own result: `不适用` for folders, else `有更新`, `已是最新` or `检查失败` |
| ManageView.AfterCheckNeverFails | gui.py:749-754 | when every answer is what `check_update` gives for the node's repository (`NodeManager.CheckUpdate`), no node ends `检查失败` |
| ManageView.ManageTab.CheckUpdatesLogic | gui.py:720-758 | the loop leaves the status cache equal to the check fold over the current nodes |
| ManageView.UpdateStep | gui.py:813-838 | one selected row: every other row is kept, and the row keeps its name, type and URL; a non-`Git` row changes nothing; a failed pull sets only the message `更新失败`, keeping cache and metadata; a successful pull sets `已更新` and `最后更新: now` and records the name as `已更新` with `last_updated = now`: the new cache is the old one with only that name set to `已更新`, and the new metadata is the old one with only `last_updated` of the node's basename set to `now` |
| ManageView.UnselectedRows | gui.py:813-838 | a row not among the selected items is never changed by the update |
| ManageView.AfterUpdateRecords | gui.py:813-836 | every `Git` row whose pull succeeded ends `已更新` in the cache, with `last_updated = now` stored for its node, whatever later rows do |
| ManageView.FailedUpdatesChangeNoMetadata | gui.py:813-836 | when no pull succeeds the cache and the metadata are unchanged |
| ManageView.AfterUpdateKeepsStatus | gui.py:813-838 | a name with no succeeded `Git` row among the selection keeps its cached status |
| ManageView.AfterUpdateKeepsEntry | gui.py:813-838 | a metadata key that no succeeded `Git` row stamps keeps its entry, present or absent |
| ManageView.AfterUpdateRow | gui.py:813-838 | after the update a non-`Git` row is untouched; a `Git` row shows its last pull's outcome: `已更新` with `最后更新: now` on success, the message `更新失败` on failure |
| ManageView.UntouchedRows | gui.py:818-838 | a row that is not `Git` is never changed by the update |
| ManageView.ManageTab.UpdateSelectedLogic | gui.py:802-838 | the loop leaves cache, table and metadata equal to the update fold over the selected rows |
| ManageView.DeleteSelectedLogic | gui.py:774-800 | without a selection, confirmation or root nothing changes; otherwise exactly the selected node paths leave the disk and exactly their names leave the metadata |
| MigrateView.TargetStatus | gui.py:973-981 | `未知` exactly without a target root, `已存在（跳过）` exactly when the target path exists, else `可迁移` |
| MigrateView.MigrateRowsLength | gui.py:969-999 | the table has one row per old node that passes the text, hide-existing and status filters |
| MigrateView.MigrateRowsAt | gui.py:969-1005 | each passing node's row (name, URL or `Local Dir`, target status) sits at the position counting passing nodes before it |
| MigrateView.CountShownGrows | gui.py:969-1005 | a passing node before a later position raises the count of passing nodes, so rows keep node order |
| MigrateView.MigrateRowsOnlyShown | gui.py:969-999 | every row comes from a passing node |
| MigrateView.FreshStatusPasses | gui.py:993-999 | on fresh statuses, `可迁移` keeps only `可迁移`, `已存在` keeps only `已存在（跳过）`, and `已迁移` keeps nothing |
| MigrateView.MigrateRowsStatuses | gui.py:983-999 | with hide-existing no row is `已存在（跳过）`; with `可迁移` or `已存在` every row has that status; the `已迁移` choice shows no row |
| MigrateView.MigratedChoiceShowsNothing | gui.py:997-998 | the `已迁移` status choice always yields an empty table |
| MigrateView.StatusPassesDone | gui.py:992-998 | the `已迁移` choice matches `已迁移（Git）` and `已复制`; `已存在` matches `已存在（跳过）` |
| MigrateView.SkippedIsNotMigrated | gui.py:997-998 | a row skipped as non-git does not pass the `已迁移` choice |
| MigrateView.DoneIsNotExistingOrMigratable | gui.py:993-996 | migrated and copied rows pass neither the `已存在` nor the `可迁移` choice |
| MigrateView.MigrateTab.FilterMigrateList | gui.py:961-1005 | the rebuilt table is exactly the filtered rows of the old nodes, and no row is marked migrated or copied |
| MigrateView.FindNode | gui.py:1046-1048 | the first node of that name, `None` exactly when there is none |
| MigrateView.MigrateStep | gui.py:1038-1062 | a row marked existing, or whose name has no node, is skipped; a found node that is not git with a URL is marked `已跳过（非Git）`; a git node with a URL is cloned under the clone guard, marked `已迁移（Git）` with its target populated on success and left as it was on a refused or failed clone; only that row's status changes and the disk only grows, and only through such a clone |
| MigrateView.MigrateTab.MigrateOne | gui.py:1038-1062 | one row of the migration loop leaves table and disk equal to the migration step |
| MigrateView.MigrationItems | gui.py:1036 | the checked rows, else the selected rows, else all rows; empty only for an empty table |
| MigrateView.MigrateInvariants | gui.py:1026-1062 | migration keeps every migrated or copied row backed by a directory in the target root, removes no path and leaves rows marked existing as they are |
| MigrateView.MigrateTab.MigrationLogic | gui.py:1026-1062 | without a target root nothing changes; otherwise the loop leaves table and disk equal to the migration fold over the chosen rows |
| MigrateView.FreshRowsBacked | gui.py:961-1005 | a freshly built table satisfies the backing invariant |
| MigrateView.CopyStep | gui.py:1080-1106 | a row whose status mentions `已存在`, `已迁移` or `已复制`, a missing source and an existing target leave table and disk as they were; otherwise the target becomes a copy of the source and the row is marked `已复制`; no existing path changes |
| MigrateView.CopyInvariants | gui.py:1064-1106 | copying never overwrites an existing path, only adds targets of selected rows, and keeps copied rows backed by a directory |
| MigrateView.MigrateTab.CopySelectedLogic | gui.py:1064-1106 | without a selection or without both roots nothing changes; otherwise the loop leaves table and disk equal to the copy fold over the selection |

## Left out

- Git, subprocess, pip, the network, Tk widgets, dialogs, logging and threads: outcomes are parameters, and the output text of clone, pull and commit info is not modelled.
- `load_metadata` and `save_metadata`: JSON files on disk; the store starts from a given map and a failed save has no effect in the source either.
- `datetime.now`: the formatted time is a parameter `now`.
- `get_git_url`, `get_last_commit_info`, `pull_node`, `install_requirements` and `load_backup`: these only run git, pip or file I/O; pull success is a parameter of the update.
- `repair_selected_logic`, `install_reqs_logic`, `delete_migrate_logic`, `update_single_node_ui` and the symlink tab: they are outside the modelled core.
- Text.Lower: only ASCII letters are lowered; Python's full Unicode `lower()` is not modelled.
- Paths.Join: UNC shares (`\\server\share`) are not modelled, and drive letters are compared case-sensitively, whereas Windows treats `c:` and `C:` as the same drive.
- Install.GitInstall: a `..` install name when the root holds no node is treated as a clone into `root\..`, because the contents of the root's parent are not tracked; `.` and `..` components inside a longer name are joined as text and not normalised, so such a target can only conflict with a tracked path spelled the same way.
- NodeManager.CreateBackup: the JSON write of the records to `output_path` (with `ensure_ascii=False` and indentation) is not modelled; the records are returned instead.
- NodeManager.MetadataStore.RemoveNodeMetadata: the exception branch around `del` is not modelled, since deleting a present key cannot fail.
- NodeManager.DeleteNode: permission errors swallowed by the `rmtree` error handler are not modelled; a deletion removes the path.
- NodeManager.CopyNode: a source that is a file (copied with `copy2`) is not modelled; every node path is a directory.
- MigrateView.CopyStep: I/O errors during copying other than an existing target, and partially copied directories, are not modelled.
- ManageView.DeleteSelectedLogic: removing the deleted rows from the widget, and exceptions raised by a deletion, are not modelled.
- ManageView.ManageTab.UpdateManageList: the check-box column, row striping and the clearing of the checked set are not modelled.
- UrlVerify.VerifyAndSetGitUrl: the temporary directory's cleanup and the refresh scheduled after storing the URL are not modelled; the walks are parameters.
- Tk item values are strings read back from the table: values Tk would convert (for example a numeric node name) are not modelled.
- UrlVerify.Similarity: Python's float division becomes exact `real` division; the `> 0.5` decision is the same for sets below 2^53 files, and the displayed percentage is not modelled.
