/** Navigation items, the stored display configuration and the placement order (types.ts, AppShell.tsx, merge.ts). */
module MenuTypes {
  import opened Options

  type Key = string

  /** A code-defined navigation item; `caption` is the source's `label`. `group`/`subGroup`/`groupPath` are display fields. */
  datatype NavItem = NavItem(
    key: Key,
    caption: string,
    path: string,
    permission: Option<seq<string>>,
    group: Option<string>,
    subGroup: Option<string>,
    groupPath: Option<seq<string>>)

  datatype GroupRow = GroupRow(nodeKey: Key, parentKey: Option<Key>, nameOverride: Option<string>, sortOrder: int)

  datatype ItemRow = ItemRow(itemKey: Key, parentKey: Option<Key>, nameOverride: Option<string>, sortOrder: int)

  datatype Config = Config(groups: seq<GroupRow>, items: seq<ItemRow>)

  /** A sort number of the source: an integer, or the +Infinity given to what is not configured. */
  datatype Rank = Fin(n: int) | Infinite {
    predicate Less(that: Rank) {
      Fin? && (that.Fin? ==> n < that.n)
    }
  }

  datatype ResolvedItem = ResolvedItem(
    itemKey: Key, nameOverride: Option<string>, parentKey: Option<Key>, order: Rank, defaultIndex: Rank)

  datatype ResolvedGroup = ResolvedGroup(
    nodeKey: Key, nameOverride: Option<string>, parentKey: Option<Key>, order: Rank, defaultIndex: Rank)

  datatype ResolvedMenu = ResolvedMenu(items: seq<ResolvedItem>, groups: seq<ResolvedGroup>)

  const CUSTOM_GROUP_PREFIX := "custom:"

  const CUSTOM_GROUP_DEFAULT_NAME := "新分组"

  predicate IsCustomGroupNodeKey(nodeKey: Key) {
    CUSTOM_GROUP_PREFIX <= nodeKey
  }

  /** The part of a node key after its last '/'. */
  function LastSegment(nodeKey: Key): string {
    if nodeKey == [] then []
    else if nodeKey[|nodeKey| - 1] == '/' then []
    else LastSegment(nodeKey[..|nodeKey| - 1]) + [nodeKey[|nodeKey| - 1]]
  }

  function GroupDefaultName(nodeKey: Key): string {
    if IsCustomGroupNodeKey(nodeKey) then CUSTOM_GROUP_DEFAULT_NAME else LastSegment(nodeKey)
  }
}
