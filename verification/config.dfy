/** The script's fixed configuration: the two synthetic actions, the labels
    and class names it writes and searches for, the user-visible messages and
    the fixed delays. One immutable policy record per action kind replaces the
    two near-duplicate handlers' inline literals. */
module Config {

  datatype ActionKind = NotInterested | Block

  /** Everything that differs between the two actions. */
  datatype Policy = Policy(
    buttonText: string,        // text of the injected button
    kindClass: string,         // the button's second class
    menuLabel: string,         // overflow-menu entry searched for
    progressText: string,      // feedback shown when the action starts
    optionUnclickableText: string,
    optionMissingText: string,
    successText: string,
    confirms: bool             // a confirmation dialog may follow the menu entry
  )

  const ContainerClass := "ig-enhanced-buttons-container"
  const ButtonClass := "ig-enhanced-button"

  /** `aria-label` of the svg icon that opens a post's overflow menu. */
  const MenuTriggerLabel := "更多"

  const MenuTriggerMissingText := "找不到菜单按钮"
  const MenuTriggerUnclickableText := "无法点击菜单按钮"

  /** Wait for the overflow menu to render after clicking its trigger. */
  const MenuRenderDelay: nat := 500
  /** Wait for a confirmation dialog after clicking the block entry. */
  const ConfirmDelay: nat := 500
  /** Wait between the last click and the success report. */
  const SettleDelay: nat := 500

  function PolicyOf(kind: ActionKind): Policy {
    match kind
    case NotInterested =>
      Policy("不感興趣", "not-interested-btn", "不感興趣",
             "正在执行不感兴趣操作...", "无法点击不感兴趣选项", "找不到不感兴趣选项",
             "已成功标记为不感兴趣", false)
    case Block =>
      Policy("封鎖", "block-btn", "封鎖",
             "正在执行封锁操作...", "无法点击封锁选项", "找不到封锁选项",
             "已成功封锁此用户", true)
  }

  /** Every feedback text a handler can show, one per path. */
  function AllTexts(p: Policy): seq<string> {
    [p.progressText, MenuTriggerMissingText, MenuTriggerUnclickableText,
     p.optionUnclickableText, p.optionMissingText, p.successText]
  }

  /** Within one action the six feedback texts are pairwise distinct, so the
      terminal message alone tells the user which path was taken; the search
      label is a non-empty single word, and only blocking confirms. */
  lemma PolicyTable(kind: ActionKind)
    ensures var p := PolicyOf(kind);
            && (forall i, j :: 0 <= i < j < |AllTexts(p)| ==> AllTexts(p)[i] != AllTexts(p)[j])
            && p.menuLabel != [] && p.buttonText == p.menuLabel
            && (p.confirms <==> kind == Block)
  {
  }
}
