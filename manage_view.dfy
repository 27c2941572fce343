/** The node-management tab of gui.py: the filtered node table
    (`update_manage_list`), the per-node status cache filled by the update
    check (`check_updates_logic`), updating the selected nodes
    (`update_selected_logic`) and deleting them (`delete_selected_logic`).
    Widgets are left out; the table is a sequence of rows. */
module ManageView {
  import opened Wrappers
  import opened Text
  import opened GuiCommon
  import Paths
  import NodeManager

  type Node = NodeManager.Node

  const GitLabel := "Git"
  const FolderLabel := "文件夹"
  const NotApplicable := "不适用"
  const Checking := "检查中..."
  const HasUpdate := "有更新"
  const UpToDate := "已是最新"
  const CheckFailed := "检查失败"
  const Updated := "已更新"
  const UpdateFailed := "更新失败"
  const LastUpdatePrefix := "最后更新: "

  /** The three filter boxes: name text, type ("全部", "Git", "文件夹") and status. */
  datatype ManageFilter = ManageFilter(name: string, kind: string, status: string)

  /** The displayed columns of one row: name, type, URL, status and message. */
  datatype ManageRow = ManageRow(name: string, kind: string, url: string, status: string, msg: string)

  function TypeLabel(n: Node): string
  {
    if n.isGitRepo then GitLabel else FolderLabel
  }

  /** `node_status_map.get(name, "未知")`. */
  function StatusOf(statusMap: map<string, string>, name: string): string
  {
    if name in statusMap then statusMap[name] else Unknown
  }

  /** The three filters of `update_manage_list`: a lower-cased name substring
      (when not empty), the type and the cached status (each unless "全部"). */
  predicate Shown(statusMap: map<string, string>, f: ManageFilter, n: Node)
  {
    && (Lower(f.name) == "" || Contains(Lower(n.name), Lower(f.name)))
    && (f.kind == All || f.kind == TypeLabel(n))
    && (f.status == All || f.status == StatusOf(statusMap, n.name))
  }

  function RowOf(statusMap: map<string, string>, n: Node): ManageRow
  {
    ManageRow(n.name, TypeLabel(n),
              if NodeManager.Truthy(n.remoteUrl) then n.remoteUrl.value else "-",
              StatusOf(statusMap, n.name),
              if NodeManager.Truthy(n.lastUpdateTime) then LastUpdatePrefix + n.lastUpdateTime.value else "")
  }

  /** The rows the table holds after a refresh, built node by node. */
  function ManageRows(statusMap: map<string, string>, f: ManageFilter, nodes: seq<Node>): seq<ManageRow>
    decreases |nodes|
  {
    if nodes == [] then []
    else
      var init := ManageRows(statusMap, f, nodes[..|nodes| - 1]);
      var n := nodes[|nodes| - 1];
      if Shown(statusMap, f, n) then init + [RowOf(statusMap, n)] else init
  }

  function CountShown(statusMap: map<string, string>, f: ManageFilter, nodes: seq<Node>): nat
    decreases |nodes|
  {
    if nodes == [] then 0
    else CountShown(statusMap, f, nodes[..|nodes| - 1]) + (if Shown(statusMap, f, nodes[|nodes| - 1]) then 1 else 0)
  }

  lemma {:induction false} ManageRowsLength(statusMap: map<string, string>, f: ManageFilter, nodes: seq<Node>)
    ensures |ManageRows(statusMap, f, nodes)| == CountShown(statusMap, f, nodes)
    decreases |nodes|
  {
    if nodes != [] {
      ManageRowsLength(statusMap, f, nodes[..|nodes| - 1]);
    }
  }

  /** A node that passes the filters has its row at position "number of
      shown nodes before it": the table is the shown nodes, once each, in
      node order. */
  lemma {:induction false} ManageRowsAt(statusMap: map<string, string>, f: ManageFilter, nodes: seq<Node>, i: nat)
    requires i < |nodes| && Shown(statusMap, f, nodes[i])
    ensures CountShown(statusMap, f, nodes[..i]) < |ManageRows(statusMap, f, nodes)|
    ensures ManageRows(statusMap, f, nodes)[CountShown(statusMap, f, nodes[..i])] == RowOf(statusMap, nodes[i])
    decreases |nodes|
  {
    var init := nodes[..|nodes| - 1];
    if i == |nodes| - 1 {
      assert nodes[..i] == init;
      ManageRowsLength(statusMap, f, init);
    } else {
      assert init[..i] == nodes[..i];
      ManageRowsAt(statusMap, f, init, i);
    }
  }

  /** A shown node moves the position of every later one forward, so the
      rows keep the order of the nodes. */
  lemma {:induction false} CountShownGrows(statusMap: map<string, string>, f: ManageFilter, nodes: seq<Node>, i: nat, j: nat)
    requires i < j <= |nodes| && Shown(statusMap, f, nodes[i])
    ensures CountShown(statusMap, f, nodes[..i]) < CountShown(statusMap, f, nodes[..j])
    decreases j
  {
    assert nodes[..j][..j - 1] == nodes[..j - 1];
    if j > i + 1 {
      CountShownGrows(statusMap, f, nodes, i, j - 1);
    } else {
      assert nodes[..j - 1] == nodes[..i];
    }
  }

  /** Every row belongs to a node that passes the filters; so a type or
      status filter other than "全部" shows only rows with that value. */
  lemma {:induction false} ManageRowsOnlyShown(statusMap: map<string, string>, f: ManageFilter, nodes: seq<Node>, row: ManageRow)
    requires row in ManageRows(statusMap, f, nodes)
    ensures exists i :: 0 <= i < |nodes| && Shown(statusMap, f, nodes[i]) && row == RowOf(statusMap, nodes[i])
    ensures f.kind != All ==> row.kind == f.kind
    ensures f.status != All ==> row.status == f.status
    decreases |nodes|
  {
    var init := nodes[..|nodes| - 1];
    if row in ManageRows(statusMap, f, init) {
      ManageRowsOnlyShown(statusMap, f, init, row);
      var i :| 0 <= i < |init| && Shown(statusMap, f, init[i]) && row == RowOf(statusMap, init[i]);
      assert nodes[i] == init[i];
    }
  }

  // ---------------------------------------------------------------------------
  // Update check
  // ---------------------------------------------------------------------------

  /** The status a node is left with by the update check: "不适用" for a
      non-git node; otherwise from the check's answer, where `None` stands
      for an exception raised by the check. */
  function CheckedStatus(n: Node, outcome: Option<bool>): (s: string)
    ensures s == NotApplicable <==> !n.isGitRepo
    ensures s == HasUpdate <==> n.isGitRepo && outcome == Some(true)
    ensures s == UpToDate <==> n.isGitRepo && outcome == Some(false)
    ensures s == CheckFailed <==> n.isGitRepo && outcome.None?
    ensures s != Checking && s != Unknown
  {
    if !n.isGitRepo then NotApplicable
    else match outcome
      case Some(true) => HasUpdate
      case Some(false) => UpToDate
      case None => CheckFailed
  }

  /** The status cache after checking the nodes in order. */
  function AfterCheck(statusMap: map<string, string>, nodes: seq<Node>, outcomes: seq<Option<bool>>): map<string, string>
    requires |outcomes| == |nodes|
    decreases |nodes|
  {
    if nodes == [] then statusMap
    else
      var k := |nodes| - 1;
      AfterCheck(statusMap, nodes[..k], outcomes[..k])[nodes[k].name := CheckedStatus(nodes[k], outcomes[k])]
  }

  /** Checking one more node is one more cache update. */
  lemma AfterCheckExtend(statusMap: map<string, string>, nodes: seq<Node>, outcomes: seq<Option<bool>>, i: nat)
    requires |outcomes| == |nodes| && i < |nodes|
    ensures AfterCheck(statusMap, nodes[..i + 1], outcomes[..i + 1])
         == AfterCheck(statusMap, nodes[..i], outcomes[..i])[nodes[i].name := CheckedStatus(nodes[i], outcomes[i])]
  {
    assert nodes[..i + 1][..i] == nodes[..i];
    assert outcomes[..i + 1][..i] == outcomes[..i];
  }

  /** Setting a key twice keeps the second value. */
  lemma Overwrite(m: map<string, string>, key: string, first: string, second: string)
    ensures m[key := first][key := second] == m[key := second]
  {
  }

  predicate IsFinalCheckStatus(s: string)
  {
    s == NotApplicable || s == HasUpdate || s == UpToDate || s == CheckFailed
  }

  /** After the check every node has a final status; none is left "检查中...". */
  lemma {:induction false} AfterCheckFinal(statusMap: map<string, string>, nodes: seq<Node>, outcomes: seq<Option<bool>>, i: nat)
    requires |outcomes| == |nodes| && i < |nodes|
    ensures nodes[i].name in AfterCheck(statusMap, nodes, outcomes)
    ensures IsFinalCheckStatus(AfterCheck(statusMap, nodes, outcomes)[nodes[i].name])
    decreases |nodes|
  {
    var k := |nodes| - 1;
    if i < k && nodes[i].name != nodes[k].name {
      assert nodes[..k][i] == nodes[i];
      AfterCheckFinal(statusMap, nodes[..k], outcomes[..k], i);
    }
  }

  /** Names of no checked node keep their cached status. */
  lemma {:induction false} AfterCheckOthers(statusMap: map<string, string>, nodes: seq<Node>, outcomes: seq<Option<bool>>, name: string)
    requires |outcomes| == |nodes|
    requires forall i :: 0 <= i < |nodes| ==> nodes[i].name != name
    ensures StatusOf(AfterCheck(statusMap, nodes, outcomes), name) == StatusOf(statusMap, name)
    decreases |nodes|
  {
    if nodes != [] {
      var k := |nodes| - 1;
      AfterCheckOthers(statusMap, nodes[..k], outcomes[..k], name);
    }
  }

  /** With distinct names (as a scan gives), each node ends with the status
      its own check produced. */
  lemma {:induction false} AfterCheckOwn(statusMap: map<string, string>, nodes: seq<Node>, outcomes: seq<Option<bool>>, i: nat)
    requires |outcomes| == |nodes| && i < |nodes|
    requires NodeManager.UniqueNames(nodes)
    ensures StatusOf(AfterCheck(statusMap, nodes, outcomes), nodes[i].name) == CheckedStatus(nodes[i], outcomes[i])
    decreases |nodes|
  {
    var k := |nodes| - 1;
    if i < k {
      assert nodes[..k][i] == nodes[i];
      assert outcomes[..k][i] == outcomes[i];
      AfterCheckOwn(statusMap, nodes[..k], outcomes[..k], i);
    }
  }

  /** `check_update` never raises: when every answer is what
      `NodeManager.CheckUpdate` gives for that node's repository, no node
      ends "检查失败". */
  lemma {:induction false} AfterCheckNeverFails(statusMap: map<string, string>, nodes: seq<Node>,
                                                 probes: seq<NodeManager.UpstreamProbe>,
                                                 outcomes: seq<Option<bool>>, i: nat)
    requires |outcomes| == |nodes| && |probes| == |nodes| && i < |nodes|
    requires forall j :: 0 <= j < |outcomes| ==> outcomes[j] == Some(NodeManager.CheckUpdate(probes[j]))
    ensures StatusOf(AfterCheck(statusMap, nodes, outcomes), nodes[i].name) != CheckFailed
    decreases |nodes|
  {
    AfterCheckFinal(statusMap, nodes, outcomes, i);
    var k := |nodes| - 1;
    if i < k && nodes[i].name != nodes[k].name {
      assert nodes[..k][i] == nodes[i];
      AfterCheckNeverFails(statusMap, nodes[..k], probes[..k], outcomes[..k], i);
    }
  }

  // ---------------------------------------------------------------------------
  // Update of the selected rows
  // ---------------------------------------------------------------------------

  /** What updating the selected rows touches: the status cache, the table
      and the metadata. */
  datatype UpdateState = UpdateState(statusMap: map<string, string>, rows: seq<ManageRow>, meta: NodeManager.Metadata)

  /** One selected row: a "Git" row whose pull succeeds gets "已更新" in the
      cache and in the table, a last-updated message and a metadata stamp;
      a failed pull only sets the message "更新失败"; other rows are skipped. */
  function UpdateStep(st: UpdateState, root: string, k: nat, pullSucceeds: bool, now: string): (r: UpdateState)
    requires k < |st.rows|
    ensures |r.rows| == |st.rows|
    ensures forall j :: 0 <= j < |r.rows| ==> r.rows[j].name == st.rows[j].name && r.rows[j].kind == st.rows[j].kind
    ensures forall j :: 0 <= j < |r.rows| && j != k ==> r.rows[j] == st.rows[j]
    ensures r.rows[k].url == st.rows[k].url
    ensures st.rows[k].kind != GitLabel ==> r == st
    ensures !pullSucceeds ==> r.statusMap == st.statusMap && r.meta == st.meta
    ensures st.rows[k].kind == GitLabel && !pullSucceeds ==> r.rows[k].status == st.rows[k].status && r.rows[k].msg == UpdateFailed
    ensures st.rows[k].kind == GitLabel && pullSucceeds ==>
      && r.rows[k].status == Updated && r.rows[k].msg == LastUpdatePrefix + now
      && Recorded(r, root, st.rows[k].name, now)
    ensures st.rows[k].kind == GitLabel && pullSucceeds ==>
      && r.statusMap == st.statusMap[st.rows[k].name := Updated]
      && r.meta == NodeManager.Store(st.meta, Paths.Basename(Paths.Join(root, st.rows[k].name)), NodeManager.LastUpdated, now)
  {
    var row := st.rows[k];
    if row.kind != GitLabel then st
    else if pullSucceeds then
      UpdateState(st.statusMap[row.name := Updated],
                  st.rows[k := row.(status := Updated, msg := LastUpdatePrefix + now)],
                  NodeManager.Store(st.meta, Paths.Basename(Paths.Join(root, row.name)), NodeManager.LastUpdated, now))
    else UpdateState(st.statusMap, st.rows[k := row.(msg := UpdateFailed)], st.meta)
  }

  /** All selected rows, in order. */
  function AfterUpdate(st: UpdateState, root: string, items: seq<nat>, pulls: seq<bool>, now: string): (r: UpdateState)
    requires ValidItems(items, |st.rows|) && |pulls| == |items|
    ensures |r.rows| == |st.rows|
    ensures forall j :: 0 <= j < |r.rows| ==> r.rows[j].name == st.rows[j].name && r.rows[j].kind == st.rows[j].kind
    decreases |items|
  {
    if items == [] then st
    else
      var k := |items| - 1;
      var mid := AfterUpdate(st, root, items[..k], pulls[..k], now);
      UpdateStep(mid, root, items[k], pulls[k], now)
  }

  /** A row whose pull succeeded stays "已更新" with its metadata stamped,
      whatever the later rows do. */
  predicate Recorded(st: UpdateState, root: string, name: string, now: string)
  {
    && StatusOf(st.statusMap, name) == Updated
    && NodeManager.Lookup(st.meta, Paths.Basename(Paths.Join(root, name))).lastUpdated == Some(now)
  }

  lemma UpdateStepKeepsRecorded(st: UpdateState, root: string, k: nat, ok: bool, now: string, name: string)
    requires k < |st.rows| && Recorded(st, root, name, now)
    ensures Recorded(UpdateStep(st, root, k, ok, now), root, name, now)
  {
  }

  /** Every "Git" row whose pull succeeded ends up "已更新" in the cache with
      `last_updated == now` stored under its directory's basename (its name,
      for a plain directory name). */
  lemma {:induction false} AfterUpdateRecords(st: UpdateState, root: string, items: seq<nat>, pulls: seq<bool>, now: string, j: nat)
    requires ValidItems(items, |st.rows|) && |pulls| == |items|
    requires j < |items| && pulls[j] && st.rows[items[j]].kind == GitLabel
    ensures Recorded(AfterUpdate(st, root, items, pulls, now), root, st.rows[items[j]].name, now)
    decreases |items|
  {
    var k := |items| - 1;
    var mid := AfterUpdate(st, root, items[..k], pulls[..k], now);
    if j == k {
      NodeManager.StoreFrame(mid.meta, Paths.Basename(Paths.Join(root, mid.rows[items[k]].name)), NodeManager.LastUpdated, now,
                             Paths.Basename(Paths.Join(root, mid.rows[items[k]].name)), NodeManager.LastUpdated);
    } else {
      assert items[..k][j] == items[j] && pulls[..k][j] == pulls[j];
      AfterUpdateRecords(st, root, items[..k], pulls[..k], now, j);
      UpdateStepKeepsRecorded(mid, root, items[k], pulls[k], now, st.rows[items[j]].name);
    }
  }

  /** When no pull succeeds the status cache and the metadata are untouched. */
  lemma {:induction false} FailedUpdatesChangeNoMetadata(st: UpdateState, root: string, items: seq<nat>, pulls: seq<bool>, now: string)
    requires ValidItems(items, |st.rows|) && |pulls| == |items|
    requires forall j :: 0 <= j < |pulls| ==> !pulls[j]
    ensures AfterUpdate(st, root, items, pulls, now).meta == st.meta
    ensures AfterUpdate(st, root, items, pulls, now).statusMap == st.statusMap
    decreases |items|
  {
    if items != [] {
      var k := |items| - 1;
      FailedUpdatesChangeNoMetadata(st, root, items[..k], pulls[..k], now);
    }
  }

  /** The row `items[j]` is processed again after position `j`. */
  predicate RevisitedLater(items: seq<nat>, j: nat)
  {
    exists j' :: j < j' < |items| && items[j'] == items[j]
  }

  /** Position `j` is a succeeded pull of a "Git" row. */
  predicate SucceededGit(st: UpdateState, items: seq<nat>, pulls: seq<bool>, j: nat)
    requires ValidItems(items, |st.rows|) && |pulls| == |items| && j < |items|
  {
    pulls[j] && st.rows[items[j]].kind == GitLabel
  }

  /** A name with no succeeded "Git" row keeps its cached status. */
  lemma {:induction false} AfterUpdateKeepsStatus(st: UpdateState, root: string, items: seq<nat>, pulls: seq<bool>,
                                                   now: string, name: string)
    requires ValidItems(items, |st.rows|) && |pulls| == |items|
    requires forall j :: 0 <= j < |items| && SucceededGit(st, items, pulls, j) ==> st.rows[items[j]].name != name
    ensures StatusOf(AfterUpdate(st, root, items, pulls, now).statusMap, name) == StatusOf(st.statusMap, name)
    decreases |items|
  {
    if items != [] {
      var k := |items| - 1;
      assert forall j :: 0 <= j < k ==> items[..k][j] == items[j] && pulls[..k][j] == pulls[j];
      AfterUpdateKeepsStatus(st, root, items[..k], pulls[..k], now, name);
    }
  }

  /** A metadata key that no succeeded "Git" row stamps keeps its entry. */
  lemma {:induction false} AfterUpdateKeepsEntry(st: UpdateState, root: string, items: seq<nat>, pulls: seq<bool>,
                                                  now: string, key: string)
    requires ValidItems(items, |st.rows|) && |pulls| == |items|
    requires forall j :: 0 <= j < |items| && SucceededGit(st, items, pulls, j) ==>
      Paths.Basename(Paths.Join(root, st.rows[items[j]].name)) != key
    ensures NodeManager.Lookup(AfterUpdate(st, root, items, pulls, now).meta, key) == NodeManager.Lookup(st.meta, key)
    ensures key in AfterUpdate(st, root, items, pulls, now).meta <==> key in st.meta
    decreases |items|
  {
    if items != [] {
      var k := |items| - 1;
      assert forall j :: 0 <= j < k ==> items[..k][j] == items[j] && pulls[..k][j] == pulls[j];
      AfterUpdateKeepsEntry(st, root, items[..k], pulls[..k], now, key);
      var mid := AfterUpdate(st, root, items[..k], pulls[..k], now);
      assert mid.rows[items[k]].name == st.rows[items[k]].name && mid.rows[items[k]].kind == st.rows[items[k]].kind;
      UpdateStepKeepsEntry(mid, root, items[k], pulls[k], now, key);
    }
  }

  /** One step stamps only the key of its own row, and only on success. */
  lemma UpdateStepKeepsEntry(st: UpdateState, root: string, k: nat, ok: bool, now: string, key: string)
    requires k < |st.rows|
    requires st.rows[k].kind == GitLabel && ok ==> Paths.Basename(Paths.Join(root, st.rows[k].name)) != key
    ensures NodeManager.Lookup(UpdateStep(st, root, k, ok, now).meta, key) == NodeManager.Lookup(st.meta, key)
    ensures key in UpdateStep(st, root, k, ok, now).meta <==> key in st.meta
  {
    if st.rows[k].kind == GitLabel && ok {
      var stamped := Paths.Basename(Paths.Join(root, st.rows[k].name));
      NodeManager.StoreFrame(st.meta, stamped, NodeManager.LastUpdated, now, key, NodeManager.GitUrl);
      NodeManager.StoreFrame(st.meta, stamped, NodeManager.LastUpdated, now, key, NodeManager.LastUpdated);
      NodeManager.StoreFrame(st.meta, stamped, NodeManager.LastUpdated, now, key, NodeManager.InstallTime);
    }
  }

  /** The table after the update: a row that is not "Git" is untouched; a
      "Git" row shows the outcome of its last pull, "已更新" with the
      last-updated message after a success and "更新失败" after a failure. */
  lemma {:induction false} AfterUpdateRow(st: UpdateState, root: string, items: seq<nat>, pulls: seq<bool>,
                                           now: string, j: nat)
    requires ValidItems(items, |st.rows|) && |pulls| == |items|
    requires j < |items| && !RevisitedLater(items, j)
    ensures var row := AfterUpdate(st, root, items, pulls, now).rows[items[j]];
      && (st.rows[items[j]].kind != GitLabel ==> row == st.rows[items[j]])
      && (st.rows[items[j]].kind == GitLabel && pulls[j] ==> row.status == Updated && row.msg == LastUpdatePrefix + now)
      && (st.rows[items[j]].kind == GitLabel && !pulls[j] ==> row.msg == UpdateFailed)
    decreases |items|
  {
    var k := |items| - 1;
    if j < k {
      assert items[k] != items[j];
      assert forall j' :: 0 <= j' < k ==> items[..k][j'] == items[j'];
      assert items[..k][j] == items[j] && pulls[..k][j] == pulls[j];
      AfterUpdateRow(st, root, items[..k], pulls[..k], now, j);
    } else if st.rows[items[j]].kind != GitLabel {
      UntouchedRows(st, root, items[..k], pulls[..k], now, items[j]);
    }
  }

  /** A row that is not selected is never changed by the update. */
  lemma {:induction false} UnselectedRows(st: UpdateState, root: string, items: seq<nat>, pulls: seq<bool>,
                                          now: string, k: nat)
    requires ValidItems(items, |st.rows|) && |pulls| == |items| && k < |st.rows|
    requires k !in items
    ensures AfterUpdate(st, root, items, pulls, now).rows[k] == st.rows[k]
    decreases |items|
  {
    if items != [] {
      var n := |items| - 1;
      assert items == items[..n] + [items[n]];
      UnselectedRows(st, root, items[..n], pulls[..n], now, k);
      var mid := AfterUpdate(st, root, items[..n], pulls[..n], now);
      assert AfterUpdate(st, root, items, pulls, now) == UpdateStep(mid, root, items[n], pulls[n], now);
    }
  }

  /** A row that is not "Git" is never changed by the update. */
  lemma {:induction false} UntouchedRows(st: UpdateState, root: string, items: seq<nat>, pulls: seq<bool>,
                                          now: string, k: nat)
    requires ValidItems(items, |st.rows|) && |pulls| == |items| && k < |st.rows|
    requires st.rows[k].kind != GitLabel
    ensures AfterUpdate(st, root, items, pulls, now).rows[k] == st.rows[k]
    decreases |items|
  {
    if items != [] {
      var n := |items| - 1;
      UntouchedRows(st, root, items[..n], pulls[..n], now, k);
    }
  }

  /** The state of the management tab that the modelled operations change. */
  class ManageTab {
    var currentNodes: seq<Node>
    var nodeStatusMap: map<string, string>
    var rows: seq<ManageRow>

    constructor ()
      ensures currentNodes == [] && nodeStatusMap == map[] && rows == []
    {
      currentNodes := [];
      nodeStatusMap := map[];
      rows := [];
    }

    /** `update_manage_list`: the table is rebuilt from the current nodes,
        the status cache and the filters. */
    method UpdateManageList(f: ManageFilter)
      modifies this`rows
      ensures rows == ManageRows(nodeStatusMap, f, currentNodes)
    {
      var table: seq<ManageRow> := [];
      var i := 0;
      while i < |currentNodes|
        invariant 0 <= i <= |currentNodes|
        invariant table == ManageRows(nodeStatusMap, f, currentNodes[..i])
      {
        var node := currentNodes[i];
        assert currentNodes[..i + 1] == currentNodes[..i] + [node];
        var filterName := Lower(f.name);
        var isGit := node.isGitRepo;
        var nodeType := if isGit then GitLabel else FolderLabel;
        var status := if node.name in nodeStatusMap then nodeStatusMap[node.name] else Unknown;
        if (filterName == "" || Contains(Lower(node.name), filterName))
           && (f.kind == All || f.kind == nodeType)
           && (f.status == All || f.status == status)
        {
          var msg := if node.lastUpdateTime.Some? && node.lastUpdateTime.value != ""
                     then LastUpdatePrefix + node.lastUpdateTime.value else "";
          var url := if node.remoteUrl.Some? && node.remoteUrl.value != "" then node.remoteUrl.value else "-";
          table := table + [ManageRow(node.name, nodeType, url, status, msg)];
        }
        i := i + 1;
      }
      assert currentNodes[..|currentNodes|] == currentNodes;
      rows := table;
    }

    /** `check_updates_logic`: every current node's status goes through
        "检查中..." (git nodes) to its final value; `outcomes[i]` is what the
        check answered for node `i` (`None`: it raised). */
    method CheckUpdatesLogic(outcomes: seq<Option<bool>>)
      requires |outcomes| == |currentNodes|
      modifies this`nodeStatusMap
      ensures nodeStatusMap == AfterCheck(old(nodeStatusMap), currentNodes, outcomes)
    {
      var i := 0;
      while i < |currentNodes|
        invariant 0 <= i <= |currentNodes|
        invariant nodeStatusMap == AfterCheck(old(nodeStatusMap), currentNodes[..i], outcomes[..i])
      {
        var node := currentNodes[i];
        AfterCheckExtend(old(nodeStatusMap), currentNodes, outcomes, i);
        ghost var before := nodeStatusMap;
        if !node.isGitRepo {
          nodeStatusMap := nodeStatusMap[node.name := NotApplicable];
        } else {
          nodeStatusMap := nodeStatusMap[node.name := Checking];
          match outcomes[i] {
            case Some(hasUpdate) =>
              nodeStatusMap := nodeStatusMap[node.name := if hasUpdate then HasUpdate else UpToDate];
            case None =>
              nodeStatusMap := nodeStatusMap[node.name := CheckFailed];
          }
          Overwrite(before, node.name, Checking, CheckedStatus(node, outcomes[i]));
        }
        i := i + 1;
      }
      assert currentNodes[..|currentNodes|] == currentNodes;
      assert outcomes[..|outcomes|] == outcomes;
    }

    /** `update_selected_logic`: rows `items` of the table are updated in
        order; `pulls[j]` says whether the pull of row `items[j]` succeeded
        and `now` is the timestamp the store records. */
    method UpdateSelectedLogic(store: NodeManager.MetadataStore, root: string, items: seq<nat>,
                               pulls: seq<bool>, now: string)
      requires ValidItems(items, |rows|) && |pulls| == |items|
      modifies this`nodeStatusMap, this`rows, store
      ensures UpdateState(nodeStatusMap, rows, store.metadata)
           == AfterUpdate(old(UpdateState(nodeStatusMap, rows, store.metadata)), root, items, pulls, now)
    {
      ghost var st0 := UpdateState(nodeStatusMap, rows, store.metadata);
      var i := 0;
      while i < |items|
        invariant 0 <= i <= |items|
        invariant UpdateState(nodeStatusMap, rows, store.metadata) == AfterUpdate(st0, root, items[..i], pulls[..i], now)
      {
        assert items[..i + 1][..i] == items[..i];
        assert pulls[..i + 1][..i] == pulls[..i];
        var row := rows[items[i]];
        if row.kind == GitLabel {
          if pulls[i] {
            var nodePath := Paths.Join(root, row.name);
            var stamp := store.UpdateNodeTimestamp(nodePath, now);
            nodeStatusMap := nodeStatusMap[row.name := Updated];
            rows := rows[items[i] := row.(status := Updated, msg := LastUpdatePrefix + stamp)];
          } else {
            rows := rows[items[i] := row.(msg := UpdateFailed)];
          }
        }
        i := i + 1;
      }
      assert items[..|items|] == items;
      assert pulls[..|pulls|] == pulls;
    }
  }

  // ---------------------------------------------------------------------------
  // Deleting the selected nodes
  // ---------------------------------------------------------------------------

  /** `delete_selected_logic` for the names of the selected rows: nothing
      happens without a selection, without confirmation or without a root;
      otherwise each node directory is deleted (a missing one is a no-op) and
      its metadata entry removed either way. */
  method DeleteSelectedLogic(store: NodeManager.MetadataStore, disk: NodeManager.Disk, root: string,
                             names: seq<string>, confirmed: bool)
    returns (after: NodeManager.Disk)
    modifies store
    ensures names == [] || !confirmed || root == "" ==> after == disk && store.metadata == old(store.metadata)
    ensures names != [] && confirmed && root != "" ==>
      && store.metadata == old(store.metadata) - (set n | n in names)
      && after == disk - (set n | n in names :: Paths.Join(root, n))
  {
    after := disk;
    if names == [] || !confirmed || root == "" {
      return;
    }
    var i := 0;
    while i < |names|
      invariant 0 <= i <= |names|
      invariant store.metadata == old(store.metadata) - (set n | n in names[..i])
      invariant after == disk - (set n | n in names[..i] :: Paths.Join(root, n))
    {
      var name := names[i];
      assert names[..i + 1] == names[..i] + [name];
      after := NodeManager.DeleteNode(after, Paths.Join(root, name));
      store.RemoveNodeMetadata(name);
      i := i + 1;
    }
    assert names[..|names|] == names;
  }
}
