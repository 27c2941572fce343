/** The migration tab of gui.py: the table of nodes found in an old
    installation with their status in the target installation
    (`filter_migrate_list`), migrating rows by git clone (`migration_logic`)
    and copying rows (`copy_selected_logic`). */
module MigrateView {
  import opened Wrappers
  import opened Text
  import opened GuiCommon
  import Paths
  import NodeManager

  type Node = NodeManager.Node
  type Disk = NodeManager.Disk

  const ExistsSkip := "已存在（跳过）"
  const Migratable := "可迁移"
  const MigratedGit := "已迁移（Git）"
  const SkippedNonGit := "已跳过（非Git）"
  const Copied := "已复制"
  const LocalDir := "Local Dir"
  /** Substrings the filter and the actions look for in a status. */
  const ExistsTag := "已存在"
  const MigratedTag := "已迁移"
  const ExistsWord := "Exists"

  /** Name text, status choice ("全部", "可迁移", "已存在", "已迁移") and the
      "hide existing" box. */
  datatype MigrateFilter = MigrateFilter(text: string, status: string, hideExisting: bool)

  /** The displayed columns of one row: name, source URL and target status. */
  datatype MigrateRow = MigrateRow(name: string, source: string, status: string)

  /** A node of that name is already in the target installation. */
  predicate IsExisting(disk: Disk, root: string, name: string)
  {
    root != "" && Paths.Join(root, name) in disk
  }

  /** "未知" without a target root, else "已存在（跳过）" or "可迁移". */
  function TargetStatus(disk: Disk, root: string, name: string): (s: string)
    ensures s == ExistsSkip <==> IsExisting(disk, root, name)
    ensures s == Unknown <==> root == ""
    ensures s == Unknown || s == ExistsSkip || s == Migratable
  {
    if root == "" then Unknown
    else if Paths.Join(root, name) in disk then ExistsSkip
    else Migratable
  }

  /** The status choice: "可迁移" matches exactly, "已存在" by substring,
      "已迁移" matches "已迁移…" or "已复制…" by substring; other values pass. */
  predicate StatusPasses(choice: string, status: string)
  {
    if choice == All then true
    else if choice == Migratable then status == Migratable
    else if choice == ExistsTag then Contains(status, ExistsTag)
    else if choice == MigratedTag then Contains(status, MigratedTag) || Contains(status, Copied)
    else true
  }

  predicate Shown(disk: Disk, root: string, f: MigrateFilter, n: Node)
  {
    && (Lower(f.text) == "" || Contains(Lower(n.name), Lower(f.text)))
    && !(f.hideExisting && IsExisting(disk, root, n.name))
    && StatusPasses(f.status, TargetStatus(disk, root, n.name))
  }

  function RowOf(disk: Disk, root: string, n: Node): MigrateRow
  {
    MigrateRow(n.name, if NodeManager.Truthy(n.remoteUrl) then n.remoteUrl.value else LocalDir,
               TargetStatus(disk, root, n.name))
  }

  /** The rows the table holds after a refresh, built node by node. */
  function MigrateRows(disk: Disk, root: string, f: MigrateFilter, nodes: seq<Node>): seq<MigrateRow>
    decreases |nodes|
  {
    if nodes == [] then []
    else
      var init := MigrateRows(disk, root, f, nodes[..|nodes| - 1]);
      var n := nodes[|nodes| - 1];
      if Shown(disk, root, f, n) then init + [RowOf(disk, root, n)] else init
  }

  function CountShown(disk: Disk, root: string, f: MigrateFilter, nodes: seq<Node>): nat
    decreases |nodes|
  {
    if nodes == [] then 0
    else CountShown(disk, root, f, nodes[..|nodes| - 1]) + (if Shown(disk, root, f, nodes[|nodes| - 1]) then 1 else 0)
  }

  lemma {:induction false} MigrateRowsLength(disk: Disk, root: string, f: MigrateFilter, nodes: seq<Node>)
    ensures |MigrateRows(disk, root, f, nodes)| == CountShown(disk, root, f, nodes)
    decreases |nodes|
  {
    if nodes != [] {
      MigrateRowsLength(disk, root, f, nodes[..|nodes| - 1]);
    }
  }

  /** A node that passes the filters has its row at position "number of
      shown nodes before it". */
  lemma {:induction false} MigrateRowsAt(disk: Disk, root: string, f: MigrateFilter, nodes: seq<Node>, i: nat)
    requires i < |nodes| && Shown(disk, root, f, nodes[i])
    ensures CountShown(disk, root, f, nodes[..i]) < |MigrateRows(disk, root, f, nodes)|
    ensures MigrateRows(disk, root, f, nodes)[CountShown(disk, root, f, nodes[..i])] == RowOf(disk, root, nodes[i])
    decreases |nodes|
  {
    var init := nodes[..|nodes| - 1];
    if i == |nodes| - 1 {
      assert nodes[..i] == init;
      MigrateRowsLength(disk, root, f, init);
    } else {
      assert init[..i] == nodes[..i];
      MigrateRowsAt(disk, root, f, init, i);
    }
  }

  /** A shown node moves the position of every later one forward, so the
      rows keep the order of the nodes. */
  lemma {:induction false} CountShownGrows(disk: Disk, root: string, f: MigrateFilter, nodes: seq<Node>, i: nat, j: nat)
    requires i < j <= |nodes| && Shown(disk, root, f, nodes[i])
    ensures CountShown(disk, root, f, nodes[..i]) < CountShown(disk, root, f, nodes[..j])
    decreases j
  {
    assert nodes[..j][..j - 1] == nodes[..j - 1];
    if j > i + 1 {
      CountShownGrows(disk, root, f, nodes, i, j - 1);
    } else {
      assert nodes[..j - 1] == nodes[..i];
    }
  }

  /** Every row belongs to a node that passes the filters. */
  lemma {:induction false} MigrateRowsOnlyShown(disk: Disk, root: string, f: MigrateFilter, nodes: seq<Node>, row: MigrateRow)
    requires row in MigrateRows(disk, root, f, nodes)
    ensures exists i :: 0 <= i < |nodes| && Shown(disk, root, f, nodes[i]) && row == RowOf(disk, root, nodes[i])
    decreases |nodes|
  {
    var init := nodes[..|nodes| - 1];
    if row in MigrateRows(disk, root, f, init) {
      MigrateRowsOnlyShown(disk, root, f, init, row);
      var i :| 0 <= i < |init| && Shown(disk, root, f, init[i]) && row == RowOf(disk, root, init[i]);
      assert nodes[i] == init[i];
    }
  }

  /** Which of the three fresh statuses each status choice lets through:
      "可迁移" keeps "可迁移", "已存在" keeps "已存在（跳过）", and "已迁移"
      keeps none, since a rebuilt table never holds "已迁移…" or "已复制". */
  lemma FreshStatusPasses(disk: Disk, root: string, name: string, choice: string)
    requires choice == Migratable || choice == ExistsTag || choice == MigratedTag
    ensures var s := TargetStatus(disk, root, name);
      StatusPasses(choice, s) <==> (choice == Migratable && s == Migratable) || (choice == ExistsTag && s == ExistsSkip)
  {
    var s := TargetStatus(disk, root, name);
    if choice == ExistsTag {
      if s == ExistsSkip {
        ContainsAt(s, ExistsTag, 0);
      } else if Contains(s, ExistsTag) {
        ContainsChar(s, ExistsTag, '已');
      }
    } else if choice == MigratedTag {
      if Contains(s, MigratedTag) {
        ContainsChar(s, MigratedTag, if s == ExistsSkip then '迁' else '已');
      }
      if Contains(s, Copied) {
        ContainsChar(s, Copied, '复');
      }
    }
  }

  /** The "已迁移" choice matches both statuses the actions write on
      success, "已迁移（Git）" and "已复制", and "已存在" matches "已存在（跳过）". */
  lemma StatusPassesDone()
    ensures StatusPasses(MigratedTag, MigratedGit) && StatusPasses(MigratedTag, Copied)
    ensures StatusPasses(ExistsTag, ExistsSkip)
  {
    ContainsAt(MigratedGit, MigratedTag, 0);
    ContainsAt(Copied, Copied, 0);
    ContainsAt(ExistsSkip, ExistsTag, 0);
  }

  /** A node skipped as non-git does not count as migrated. */
  lemma SkippedIsNotMigrated()
    ensures !StatusPasses(MigratedTag, SkippedNonGit)
  {
    assert MigratedTag != All && MigratedTag != Migratable && MigratedTag != ExistsTag;
    MissingChar(SkippedNonGit, MigratedTag, '迁');
    MissingChar(SkippedNonGit, Copied, '复');
  }

  /** Migrated and copied rows match neither "已存在" nor "可迁移". */
  lemma DoneIsNotExistingOrMigratable()
    ensures !StatusPasses(ExistsTag, MigratedGit) && !StatusPasses(ExistsTag, Copied)
    ensures !StatusPasses(Migratable, MigratedGit) && !StatusPasses(Migratable, Copied)
  {
    MissingChar(MigratedGit, ExistsTag, '存');
    MissingChar(Copied, ExistsTag, '存');
  }

  /** With "hide existing" no row is "已存在（跳过）"; with status "已迁移"
      the table is empty; with "可迁移" or "已存在" every row has that status. */
  lemma MigrateRowsStatuses(disk: Disk, root: string, f: MigrateFilter, nodes: seq<Node>, row: MigrateRow)
    requires row in MigrateRows(disk, root, f, nodes)
    ensures f.hideExisting ==> row.status != ExistsSkip
    ensures f.status != MigratedTag
    ensures f.status == Migratable ==> row.status == Migratable
    ensures f.status == ExistsTag ==> row.status == ExistsSkip
  {
    MigrateRowsOnlyShown(disk, root, f, nodes, row);
    var i :| 0 <= i < |nodes| && Shown(disk, root, f, nodes[i]) && row == RowOf(disk, root, nodes[i]);
    if f.status == Migratable || f.status == ExistsTag || f.status == MigratedTag {
      FreshStatusPasses(disk, root, nodes[i].name, f.status);
    }
  }

  /** The "已迁移" choice always yields an empty table. */
  lemma MigratedChoiceShowsNothing(disk: Disk, root: string, f: MigrateFilter, nodes: seq<Node>)
    requires f.status == MigratedTag
    ensures MigrateRows(disk, root, f, nodes) == []
  {
    if MigrateRows(disk, root, f, nodes) != [] {
      MigrateRowsStatuses(disk, root, f, nodes, MigrateRows(disk, root, f, nodes)[0]);
    }
  }

  // ---------------------------------------------------------------------------
  // Migration and copying
  // ---------------------------------------------------------------------------

  /** `next(n for n in nodes if n.name == name)`: the first node of that name. */
  function FindNode(nodes: seq<Node>, name: string): (r: Option<Node>)
    ensures r.None? <==> forall i :: 0 <= i < |nodes| ==> nodes[i].name != name
    ensures r.Some? ==> exists i :: 0 <= i < |nodes| && nodes[i] == r.value && r.value.name == name
                                     && forall j :: 0 <= j < i ==> nodes[j].name != name
    decreases |nodes|
  {
    if nodes == [] then None
    else if nodes[0].name == name then Some(nodes[0])
    else
      var r := FindNode(nodes[1..], name);
      assert r.Some? ==> exists i :: 0 <= i < |nodes[1..]| && nodes[1..][i] == r.value && r.value.name == name
                                     && forall j :: 0 <= j < i ==> nodes[1..][j].name != name;
      assert forall i :: 1 <= i < |nodes| ==> nodes[i] == nodes[1..][i - 1];
      r
  }

  /** The table and the file system, which migration and copying change. */
  datatype TabState = TabState(rows: seq<MigrateRow>, disk: Disk)

  /** Existing paths stay, and a populated directory stays populated. */
  predicate DiskGrows(before: Disk, after: Disk)
  {
    forall p :: p in before ==> p in after && (before[p] == NodeManager.Populated ==> after[p] == NodeManager.Populated)
  }

  /** Only row `k` may change, and only its status. */
  predicate OnlyStatusOf(before: seq<MigrateRow>, after: seq<MigrateRow>, k: nat)
  {
    && |after| == |before|
    && (forall j :: 0 <= j < |after| ==> after[j].name == before[j].name && after[j].source == before[j].source)
    && (forall j :: 0 <= j < |after| && j != k ==> after[j] == before[j])
  }

  predicate MarkedExisting(status: string)
  {
    Contains(status, ExistsWord) || Contains(status, ExistsTag)
  }

  /** One row of `migration_logic`: an existing target is skipped, as is a
      name with no node; a git node with a URL is cloned into the target
      root (marked "已迁移（Git）" when the clone succeeds); any other node is
      marked "已跳过（非Git）". */
  function MigrateStep(nodes: seq<Node>, root: string, st: TabState, k: nat, cloneSucceeds: bool): (r: TabState)
    requires k < |st.rows|
    ensures OnlyStatusOf(st.rows, r.rows, k)
    ensures DiskGrows(st.disk, r.disk)
    ensures MarkedExisting(st.rows[k].status) ==> r == st
    ensures r.rows[k].status == MigratedGit && r != st ==> Paths.Join(root, st.rows[k].name) in r.disk
    ensures r.disk != st.disk ==> r.rows[k].status == MigratedGit
    ensures !MarkedExisting(st.rows[k].status) && FindNode(nodes, st.rows[k].name).None? ==> r == st
    ensures !MarkedExisting(st.rows[k].status) && FindNode(nodes, st.rows[k].name).Some? ==>
      var node := FindNode(nodes, st.rows[k].name).value;
      var target := Paths.Join(root, st.rows[k].name);
      && (!(node.isGitRepo && NodeManager.Truthy(node.remoteUrl)) ==>
            r == TabState(st.rows[k := st.rows[k].(status := SkippedNonGit)], st.disk))
      && (node.isGitRepo && NodeManager.Truthy(node.remoteUrl) ==>
            if (target !in st.disk || st.disk[target].EmptyDir?) && cloneSucceeds
            then r == TabState(st.rows[k := st.rows[k].(status := MigratedGit)], st.disk[target := NodeManager.Populated])
            else r == st)
    ensures r.disk != st.disk ==>
      FindNode(nodes, st.rows[k].name).Some?
      && FindNode(nodes, st.rows[k].name).value.isGitRepo
      && NodeManager.Truthy(FindNode(nodes, st.rows[k].name).value.remoteUrl)
  {
    var row := st.rows[k];
    if MarkedExisting(row.status) then st
    else match FindNode(nodes, row.name)
      case None => st
      case Some(node) =>
        if node.isGitRepo && NodeManager.Truthy(node.remoteUrl) then
          match NodeManager.CloneNode(st.disk, Paths.Join(root, row.name), cloneSucceeds)
          case Ok(d) => TabState(st.rows[k := row.(status := MigratedGit)], d)
          case Err(_) => st
        else TabState(st.rows[k := row.(status := SkippedNonGit)], st.disk)
  }

  /** The rows `0 .. n-1`, every row of the table. */
  function Indices(n: nat): (r: seq<nat>)
    ensures |r| == n && forall i :: 0 <= i < n ==> r[i] == i
  {
    if n == 0 then [] else Indices(n - 1) + [n - 1]
  }

  /** The checked rows, else the selected rows, else all rows. */
  function MigrationItems(checked: seq<nat>, selected: seq<nat>, count: nat): (r: seq<nat>)
    requires ValidItems(checked, count) && ValidItems(selected, count)
    ensures ValidItems(r, count)
    ensures r == [] <==> checked == [] && selected == [] && count == 0
  {
    if checked != [] then checked else if selected != [] then selected else Indices(count)
  }

  /** All rows to migrate, in order; `clones[j]` is the outcome of the clone
      row `items[j]` would run. */
  function Migrate(nodes: seq<Node>, root: string, st: TabState, items: seq<nat>, clones: seq<bool>): (r: TabState)
    requires ValidItems(items, |st.rows|) && |clones| == |items|
    ensures |r.rows| == |st.rows|
    ensures forall j :: 0 <= j < |r.rows| ==> r.rows[j].name == st.rows[j].name
    decreases |items|
  {
    if items == [] then st
    else
      var k := |items| - 1;
      MigrateStep(nodes, root, Migrate(nodes, root, st, items[..k], clones[..k]), items[k], clones[k])
  }

  /** Migrating one more row is one more step. */
  lemma MigrateExtend(nodes: seq<Node>, root: string, st: TabState, items: seq<nat>, clones: seq<bool>, i: nat)
    requires ValidItems(items, |st.rows|) && |clones| == |items| && i < |items|
    ensures ValidItems(items[..i], |st.rows|) && ValidItems(items[..i + 1], |st.rows|)
    ensures var mid := Migrate(nodes, root, st, items[..i], clones[..i]);
      items[i] < |mid.rows| &&
      Migrate(nodes, root, st, items[..i + 1], clones[..i + 1]) == MigrateStep(nodes, root, mid, items[i], clones[i])
  {
    assert items[..i + 1][..i] == items[..i];
    assert clones[..i + 1][..i] == clones[..i];
  }

  /** Every row marked "已迁移（Git）" or "已复制" has its node directory in
      the target root. */
  predicate Backed(st: TabState, root: string)
  {
    forall k :: 0 <= k < |st.rows| && (st.rows[k].status == MigratedGit || st.rows[k].status == Copied) ==>
      Paths.Join(root, st.rows[k].name) in st.disk
  }

  /** A freshly built table has no migrated or copied row. */
  lemma FreshRowsBacked(disk: Disk, root: string, f: MigrateFilter, nodes: seq<Node>)
    ensures Backed(TabState(MigrateRows(disk, root, f, nodes), disk), root)
  {
    var rows := MigrateRows(disk, root, f, nodes);
    forall k | 0 <= k < |rows|
      ensures rows[k].status != MigratedGit && rows[k].status != Copied
    {
      MigrateRowsStatuses(disk, root, f, nodes, rows[k]);
      MigrateRowsOnlyShown(disk, root, f, nodes, rows[k]);
    }
  }

  lemma StepKeepsBacked(before: TabState, after: TabState, root: string, k: nat)
    requires Backed(before, root) && k < |before.rows|
    requires OnlyStatusOf(before.rows, after.rows, k) && DiskGrows(before.disk, after.disk)
    requires (after.rows[k].status == MigratedGit || after.rows[k].status == Copied) && after.rows[k] != before.rows[k]
             ==> Paths.Join(root, before.rows[k].name) in after.disk
    ensures Backed(after, root)
  {
  }

  /** Migration keeps every migrated or copied row backed by a directory,
      never removes a path, and leaves rows marked existing as they are. */
  lemma {:induction false} MigrateInvariants(nodes: seq<Node>, root: string, st: TabState, items: seq<nat>, clones: seq<bool>)
    requires ValidItems(items, |st.rows|) && |clones| == |items|
    requires Backed(st, root)
    ensures Backed(Migrate(nodes, root, st, items, clones), root)
    ensures DiskGrows(st.disk, Migrate(nodes, root, st, items, clones).disk)
    ensures forall j :: 0 <= j < |st.rows| && MarkedExisting(st.rows[j].status) ==>
      Migrate(nodes, root, st, items, clones).rows[j] == st.rows[j]
    decreases |items|
  {
    if items != [] {
      var k := |items| - 1;
      var mid := Migrate(nodes, root, st, items[..k], clones[..k]);
      MigrateInvariants(nodes, root, st, items[..k], clones[..k]);
      StepKeepsBacked(mid, MigrateStep(nodes, root, mid, items[k], clones[k]), root, items[k]);
    }
  }

  /** The statuses `copy_selected_logic` skips: the target exists, or the
      row was already migrated or copied. */
  predicate MarkedDone(status: string)
  {
    Contains(status, ExistsTag) || Contains(status, MigratedTag) || Contains(status, Copied)
  }

  /** One row of `copy_selected_logic`: a row whose status mentions
      "已存在", "已迁移" or "已复制" is skipped, as is a missing source;
      otherwise the source directory is copied (refused onto an existing
      target) and the row marked "已复制". */
  function CopyStep(sourceRoot: string, targetRoot: string, st: TabState, k: nat): (r: TabState)
    requires k < |st.rows|
    ensures OnlyStatusOf(st.rows, r.rows, k)
    ensures forall p :: p in st.disk ==> p in r.disk && r.disk[p] == st.disk[p]
    ensures r.disk.Keys <= st.disk.Keys + {Paths.Join(targetRoot, st.rows[k].name)}
    ensures r.rows[k].status == Copied && r != st ==> Paths.Join(targetRoot, st.rows[k].name) in r.disk
    ensures MarkedDone(st.rows[k].status) ==> r == st
    ensures Paths.Join(sourceRoot, st.rows[k].name) !in st.disk ==> r == st
    ensures Paths.Join(targetRoot, st.rows[k].name) in st.disk ==> r == st
    ensures !MarkedDone(st.rows[k].status)
            && Paths.Join(sourceRoot, st.rows[k].name) in st.disk
            && Paths.Join(targetRoot, st.rows[k].name) !in st.disk ==>
      r == TabState(st.rows[k := st.rows[k].(status := Copied)],
                    st.disk[Paths.Join(targetRoot, st.rows[k].name) := st.disk[Paths.Join(sourceRoot, st.rows[k].name)]])
  {
    var row := st.rows[k];
    if MarkedDone(row.status) then st
    else
      var source := Paths.Join(sourceRoot, row.name);
      if source !in st.disk then st
      else match NodeManager.CopyNode(st.disk, source, Paths.Join(targetRoot, row.name))
        case Ok(d) => TabState(st.rows[k := row.(status := Copied)], d)
        case Err(_) => st
  }

  function CopyAll(sourceRoot: string, targetRoot: string, st: TabState, items: seq<nat>): (r: TabState)
    requires ValidItems(items, |st.rows|)
    ensures |r.rows| == |st.rows|
    ensures forall j :: 0 <= j < |r.rows| ==> r.rows[j].name == st.rows[j].name
    decreases |items|
  {
    if items == [] then st
    else
      var k := |items| - 1;
      CopyStep(sourceRoot, targetRoot, CopyAll(sourceRoot, targetRoot, st, items[..k]), items[k])
  }

  /** Copying one more row is one more step. */
  lemma CopyAllExtend(sourceRoot: string, targetRoot: string, st: TabState, items: seq<nat>, i: nat)
    requires ValidItems(items, |st.rows|) && i < |items|
    ensures ValidItems(items[..i], |st.rows|) && ValidItems(items[..i + 1], |st.rows|)
    ensures var mid := CopyAll(sourceRoot, targetRoot, st, items[..i]);
      items[i] < |mid.rows| &&
      CopyAll(sourceRoot, targetRoot, st, items[..i + 1]) == CopyStep(sourceRoot, targetRoot, mid, items[i])
  {
    assert items[..i + 1][..i] == items[..i];
  }

  /** Copying never overwrites: every path that existed keeps its state, and
      the only new paths are the targets of the selected rows; every copied
      row stays backed by a directory. */
  lemma {:induction false} CopyInvariants(sourceRoot: string, targetRoot: string, st: TabState, items: seq<nat>)
    requires ValidItems(items, |st.rows|)
    requires Backed(st, targetRoot)
    ensures Backed(CopyAll(sourceRoot, targetRoot, st, items), targetRoot)
    ensures forall p :: p in st.disk ==> p in CopyAll(sourceRoot, targetRoot, st, items).disk
                                          && CopyAll(sourceRoot, targetRoot, st, items).disk[p] == st.disk[p]
    ensures forall p :: p in CopyAll(sourceRoot, targetRoot, st, items).disk && p !in st.disk ==>
      exists j :: 0 <= j < |items| && p == Paths.Join(targetRoot, st.rows[items[j]].name)
    decreases |items|
  {
    if items != [] {
      var k := |items| - 1;
      var mid := CopyAll(sourceRoot, targetRoot, st, items[..k]);
      CopyInvariants(sourceRoot, targetRoot, st, items[..k]);
      var r := CopyStep(sourceRoot, targetRoot, mid, items[k]);
      assert CopyAll(sourceRoot, targetRoot, st, items) == r;
      StepKeepsBacked(mid, r, targetRoot, items[k]);
      forall p | p in r.disk && p !in st.disk
        ensures exists j :: 0 <= j < |items| && p == Paths.Join(targetRoot, st.rows[items[j]].name)
      {
        if p in mid.disk {
          var j :| 0 <= j < k && p == Paths.Join(targetRoot, st.rows[items[..k][j]].name);
          assert items[..k][j] == items[j];
        } else {
          assert p == Paths.Join(targetRoot, mid.rows[items[k]].name);
          assert mid.rows[items[k]].name == st.rows[items[k]].name;
        }
      }
    }
  }

  /** The state of the migration tab that the modelled operations change. */
  class MigrateTab {
    var migrationNodes: seq<Node>
    var rows: seq<MigrateRow>

    constructor ()
      ensures migrationNodes == [] && rows == []
    {
      migrationNodes := [];
      rows := [];
    }

    /** `filter_migrate_list`: the table is rebuilt from the scanned old
        nodes, the target root as it is on `disk`, and the filters. */
    method FilterMigrateList(disk: Disk, root: string, f: MigrateFilter)
      modifies this`rows
      ensures rows == MigrateRows(disk, root, f, migrationNodes)
      ensures Backed(TabState(rows, disk), root)
    {
      var table: seq<MigrateRow> := [];
      var filterText := Lower(f.text);
      var i := 0;
      while i < |migrationNodes|
        invariant 0 <= i <= |migrationNodes|
        invariant table == MigrateRows(disk, root, f, migrationNodes[..i])
      {
        var node := migrationNodes[i];
        assert migrationNodes[..i + 1] == migrationNodes[..i] + [node];
        var status := Unknown;
        var isExisting := false;
        if root != "" {
          if Paths.Join(root, node.name) in disk {
            status := ExistsSkip;
            isExisting := true;
          } else {
            status := Migratable;
          }
        }
        assert status == TargetStatus(disk, root, node.name) && isExisting == IsExisting(disk, root, node.name);
        var passes := true;
        if f.status != All {
          if f.status == Migratable && status != Migratable {
            passes := false;
          } else if f.status == ExistsTag && !Contains(status, ExistsTag) {
            passes := false;
          } else if f.status == MigratedTag && !Contains(status, MigratedTag) && !Contains(status, Copied) {
            passes := false;
          }
        }
        assert passes == StatusPasses(f.status, status);
        if (filterText == "" || Contains(Lower(node.name), filterText)) && !(f.hideExisting && isExisting) && passes {
          var source := if node.remoteUrl.Some? && node.remoteUrl.value != "" then node.remoteUrl.value else LocalDir;
          table := table + [MigrateRow(node.name, source, status)];
        }
        i := i + 1;
      }
      assert migrationNodes[..|migrationNodes|] == migrationNodes;
      rows := table;
      FreshRowsBacked(disk, root, f, migrationNodes);
    }

    /** One row of `migration_logic`. */
    method MigrateOne(root: string, disk: Disk, k: nat, cloneSucceeds: bool) returns (after: Disk)
      requires k < |rows|
      modifies this`rows
      ensures TabState(rows, after) == MigrateStep(migrationNodes, root, TabState(old(rows), disk), k, cloneSucceeds)
    {
      after := disk;
      var row := rows[k];
      if Contains(row.status, ExistsWord) || Contains(row.status, ExistsTag) {
        return;
      }
      var node := FindNode(migrationNodes, row.name);
      if node.None? {
        return;
      }
      if node.value.isGitRepo && node.value.remoteUrl.Some? && node.value.remoteUrl.value != "" {
        var cloned := NodeManager.CloneNode(disk, Paths.Join(root, row.name), cloneSucceeds);
        if cloned.Ok? {
          after := cloned.value;
          rows := rows[k := row.(status := MigratedGit)];
        }
      } else {
        rows := rows[k := row.(status := SkippedNonGit)];
      }
    }

    /** `migration_logic`: nothing happens without a target root; otherwise
        the checked, else selected, else all rows are migrated in order. */
    method MigrationLogic(disk: Disk, root: string, checked: seq<nat>, selected: seq<nat>, clones: seq<bool>)
      returns (after: Disk)
      requires ValidItems(checked, |rows|) && ValidItems(selected, |rows|)
      requires |clones| == |MigrationItems(checked, selected, |rows|)|
      modifies this`rows
      ensures root == "" ==> rows == old(rows) && after == disk
      ensures root != "" ==>
        TabState(rows, after) == Migrate(migrationNodes, root, TabState(old(rows), disk),
                                         MigrationItems(checked, selected, |old(rows)|), clones)
    {
      after := disk;
      if root == "" {
        return;
      }
      var items := if checked != [] then checked else if selected != [] then selected else Indices(|rows|);
      ghost var st0 := TabState(rows, disk);
      var i := 0;
      while i < |items|
        invariant 0 <= i <= |items| && ValidItems(items, |st0.rows|)
        invariant TabState(rows, after) == Migrate(migrationNodes, root, st0, items[..i], clones[..i])
      {
        MigrateExtend(migrationNodes, root, st0, items, clones, i);
        after := MigrateOne(root, after, items[i], clones[i]);
        i := i + 1;
      }
      assert items[..|items|] == items;
      assert clones[..|clones|] == clones;
    }

    /** `copy_selected_logic`: nothing happens without a selection or
        without both roots; otherwise the checked, else selected, rows are
        copied in order from the old root to the target root. */
    method CopySelectedLogic(disk: Disk, sourceRoot: string, targetRoot: string, checked: seq<nat>, selected: seq<nat>)
      returns (after: Disk)
      requires ValidItems(checked, |rows|) && ValidItems(selected, |rows|)
      modifies this`rows
      ensures (checked == [] && selected == []) || sourceRoot == "" || targetRoot == "" ==> rows == old(rows) && after == disk
      ensures (checked != [] || selected != []) && sourceRoot != "" && targetRoot != "" ==>
        TabState(rows, after) == CopyAll(sourceRoot, targetRoot, TabState(old(rows), disk),
                                         if checked != [] then checked else selected)
    {
      after := disk;
      var items := if checked != [] then checked else selected;
      if items == [] || targetRoot == "" || sourceRoot == "" {
        return;
      }
      ghost var st0 := TabState(rows, disk);
      var i := 0;
      while i < |items|
        invariant 0 <= i <= |items|
        invariant TabState(rows, after) == CopyAll(sourceRoot, targetRoot, st0, items[..i])
      {
        CopyAllExtend(sourceRoot, targetRoot, st0, items, i);
        ghost var before := TabState(rows, after);
        var k := items[i];
        var row := rows[k];
        if !(Contains(row.status, ExistsTag) || Contains(row.status, MigratedTag) || Contains(row.status, Copied)) {
          var sourcePath := Paths.Join(sourceRoot, row.name);
          if sourcePath in after {
            var copied := NodeManager.CopyNode(after, sourcePath, Paths.Join(targetRoot, row.name));
            if copied.Ok? {
              after := copied.value;
              rows := rows[k := row.(status := Copied)];
            }
          }
        }
        assert TabState(rows, after) == CopyStep(sourceRoot, targetRoot, before, k);
        i := i + 1;
      }
      assert items[..|items|] == items;
    }
  }
}
