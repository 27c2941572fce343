/** Values both tabs of gui.py share: the "all" filter choice, the status
    shown for a node nothing is known about, and row selections. */
module GuiCommon {
  const All := "全部"
  const Unknown := "未知"

  /** Every selected row index lies inside a table of `count` rows. */
  predicate ValidItems(items: seq<nat>, count: nat)
  {
    forall j :: 0 <= j < |items| ==> items[j] < count
  }
}
