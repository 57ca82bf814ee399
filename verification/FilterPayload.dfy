/** From the filter editor to the server and back (advanced-filter.ts:191-457, base.dto.ts:91-189, table-query.ts:267-288, 683-701). */
module FilterPayload {
  import opened Options
  import opened Seqs
  import opened Strings

  /** Parsed JSON; an object's absent keys are its `undefined` ones. */
  datatype Json = JNull | JBool(b: bool) | JNumber(n: real) | JString(s: string) | JArray(items: seq<Json>) | JObject(members: map<string, Json>)

  datatype Logic = AND | OR

  /** A condition as it is sent. */
  datatype Condition = Condition(field: string, operator: string, value: string, valueEnd: Option<string>)

  /** `filters` as it is sent: conditions and groups of conditions; nothing is nested deeper. */
  datatype PayloadNode = One(condition: Condition) | Many(logic: Logic, conditions: seq<PayloadNode>)

  /** What the editor shows: the same with editing ids and labels. */
  datatype EditorNode =
    | Line(id: string, condition: Condition, valueLabel: Option<string>)
    | Group(id: string, logic: Logic, children: seq<EditorNode>)

  const NO_VALUE_OPERATORS: set<string> :=
    {"IS_EMPTY", "IS_NOT_EMPTY", "TODAY", "THIS_WEEK", "THIS_MONTH", "THIS_YEAR", "LAST_7_DAYS", "LAST_30_DAYS"}

  const TABLE_FILTER_OPERATORS: set<string> := {
    "EQUALS", "NOT_EQUALS", "CONTAINS", "NOT_CONTAINS", "GREATER_THAN", "GREATER_THAN_OR_EQUAL", "LESS_THAN",
    "LESS_THAN_OR_EQUAL", "BEFORE", "AFTER", "BETWEEN", "IS_EMPTY", "IS_NOT_EMPTY", "STARTS_WITH", "ENDS_WITH",
    "TODAY", "THIS_WEEK", "THIS_MONTH", "THIS_YEAR", "LAST_7_DAYS", "LAST_30_DAYS"
  }

  const TABLE_FILTER_MAX_GROUPS := 10
  const TABLE_FILTER_MAX_CONDITIONS := 100
  const MAX_FIELD_LENGTH := 100

  // ---------------------------------------------------------------- the editor's side

  predicate IsPopulated(c: Condition) {
    Trim(c.value) != "" || c.operator in NO_VALUE_OPERATORS
  }

  /** The populated lines directly in a group; groups nested in it are dropped. */
  function PopulatedLines(children: seq<EditorNode>): (r: seq<EditorNode>)
    ensures forall x :: x in r ==> x.Line? && x in children && IsPopulated(x.condition)
  {
    if children == [] then []
    else (if children[0].Line? && IsPopulated(children[0].condition) then [children[0]] else []) + PopulatedLines(children[1..])
  }

  function PruneOne(child: EditorNode): seq<EditorNode> {
    match child
    case Line(_, c, _) => if IsPopulated(c) then [child] else []
    case Group(id, logic, inner) => if PopulatedLines(inner) == [] then [] else [Group(id, logic, PopulatedLines(inner))]
  }

  function PruneChildren(children: seq<EditorNode>): seq<EditorNode> {
    if children == [] then [] else PruneOne(children[0]) + PruneChildren(children[1..])
  }

  function Prune(root: EditorNode): EditorNode
    requires root.Group?
  {
    root.(children := PruneChildren(root.children))
  }

  function ToPayload(node: EditorNode): PayloadNode {
    match node
    case Line(_, c, _) => One(c)
    case Group(_, logic, children) => Many(logic, ToPayloads(children))
  }

  function ToPayloads(nodes: seq<EditorNode>): (r: seq<PayloadNode>)
    ensures |r| == |nodes|
  {
    if nodes == [] then [] else [ToPayload(nodes[0])] + ToPayloads(nodes[1..])
  }

  /** `None`: no condition is populated and `filters` is not sent. */
  function BuildFilterTreePayload(root: EditorNode): Option<PayloadNode>
    requires root.Group?
  {
    var pruned := Prune(root);
    if pruned.children == [] then None else Some(ToPayload(pruned))
  }

  function LogicName(logic: Logic): string {
    if logic.AND? then "AND" else "OR"
  }

  function ConditionJson(c: Condition): Json {
    var base := map["field" := JString(c.field), "operator" := JString(c.operator), "value" := JString(c.value)];
    JObject(if c.valueEnd.Some? then base["valueEnd" := JString(c.valueEnd.value)] else base)
  }

  function ToJson(p: PayloadNode): Json {
    match p
    case One(c) => ConditionJson(c)
    case Many(logic, conditions) => JObject(map["logic" := JString(LogicName(logic)), "conditions" := JArray(ToJsons(conditions))])
  }

  function ToJsons(ps: seq<PayloadNode>): (r: seq<Json>)
    ensures |r| == |ps| && forall i :: 0 <= i < |ps| ==> r[i] == ToJson(ps[i])
  {
    if ps == [] then [] else [ToJson(ps[0])] + ToJsons(ps[1..])
  }

  // ---------------------------------------------------------------- the server's grammar

  function Member(j: Json, key: string): Option<Json> {
    if j.JObject? && key in j.members then Some(j.members[key]) else None
  }

  predicate IsString(m: Option<Json>) {
    m.Some? && m.value.JString?
  }

  predicate IsArray(m: Option<Json>) {
    m.Some? && m.value.JArray?
  }

  predicate IsFilterCondition(j: Json) {
    && IsString(Member(j, "field")) && 1 <= |j.members["field"].s| <= MAX_FIELD_LENGTH
    && IsString(Member(j, "operator")) && j.members["operator"].s in TABLE_FILTER_OPERATORS
    && IsString(Member(j, "value"))
    && if j.members["operator"].s == "BETWEEN" then IsString(Member(j, "valueEnd")) else Member(j, "valueEnd").None?
  }

  predicate IsLogic(m: Option<Json>) {
    m == Some(JString("AND")) || m == Some(JString("OR"))
  }

  predicate IsFilterSubGroup(j: Json) {
    && IsLogic(Member(j, "logic")) && IsArray(Member(j, "conditions"))
    && var items := j.members["conditions"].items;
       1 <= |items| <= TABLE_FILTER_MAX_CONDITIONS && forall item :: item in items ==> IsFilterCondition(item)
  }

  function CountGroups(items: seq<Json>): nat {
    if items == [] then 0 else (if IsFilterCondition(items[0]) then 0 else 1) + CountGroups(items[1..])
  }

  function CountConditions(items: seq<Json>): nat {
    if items == [] then 0
    else
      (if IsFilterCondition(items[0]) then 1
       else if IsArray(Member(items[0], "conditions")) then |items[0].members["conditions"].items|
       else 0)
      + CountConditions(items[1..])
  }

  predicate IsFilterTree(j: Json) {
    && IsLogic(Member(j, "logic")) && IsArray(Member(j, "conditions"))
    && var items := j.members["conditions"].items;
       && |items| >= 1
       && (forall item :: item in items ==> IsFilterCondition(item) || IsFilterSubGroup(item))
       && CountGroups(items) <= TABLE_FILTER_MAX_GROUPS
       && CountConditions(items) <= TABLE_FILTER_MAX_CONDITIONS
  }

  /** base.dto.ts:142-158 as written: one pass with two counters. */
  method CheckFilterTree(j: Json) returns (ok: bool)
    ensures ok <==> IsFilterTree(j)
  {
    if !IsLogic(Member(j, "logic")) || !IsArray(Member(j, "conditions")) || |j.members["conditions"].items| < 1 {
      return false;
    }
    var items := j.members["conditions"].items;
    var subGroupCount, conditionCount := 0, 0;
    for i := 0 to |items|
      invariant forall k :: 0 <= k < i ==> IsFilterCondition(items[k]) || IsFilterSubGroup(items[k])
      invariant subGroupCount + CountGroups(items[i..]) == CountGroups(items)
      invariant conditionCount + CountConditions(items[i..]) == CountConditions(items)
    {
      assert items[i..][1..] == items[i + 1..];
      if IsFilterCondition(items[i]) {
        conditionCount := conditionCount + 1;
      } else if !IsFilterSubGroup(items[i]) {
        assert items[i] in items;
        return false;
      } else {
        subGroupCount := subGroupCount + 1;
        conditionCount := conditionCount + |items[i].members["conditions"].items|;
      }
    }
    ok := subGroupCount <= TABLE_FILTER_MAX_GROUPS && conditionCount <= TABLE_FILTER_MAX_CONDITIONS;
  }

  // ---------------------------------------------------------------- normalising on the server

  function AsCondition(j: Json): Option<Condition> {
    if IsString(Member(j, "field")) && IsString(Member(j, "operator")) && IsString(Member(j, "value")) then
      Some(Condition(j.members["field"].s, j.members["operator"].s, j.members["value"].s,
                     if IsString(Member(j, "valueEnd")) then Some(j.members["valueEnd"].s) else None))
    else None
  }

  function AsConditions(items: seq<Json>): (r: Option<seq<PayloadNode>>)
    ensures r.Some? ==> |r.value| == |items|
  {
    if items == [] then Some([])
    else
      var first, rest := AsCondition(items[0]), AsConditions(items[1..]);
      if first.None? || rest.None? then None else Some([One(first.value)] + rest.value)
  }

  function LogicOf(m: Option<Json>): Logic {
    if m == Some(JString("OR")) then OR else AND
  }

  /** A condition, or one level of group: a group inside a group is rejected by `AsCondition`'s caller. */
  function AsTreeNode(j: Json): Option<PayloadNode> {
    if IsArray(Member(j, "conditions")) then
      var items := j.members["conditions"].items;
      if exists item :: item in items && IsArray(Member(item, "conditions")) then None
      else
        var conditions := AsConditions(items);
        if conditions.None? then None else Some(Many(LogicOf(Member(j, "logic")), conditions.value))
    else
      var c := AsCondition(j);
      if c.None? then None else Some(One(c.value))
  }

  function AsTreeNodes(items: seq<Json>): Option<seq<PayloadNode>> {
    if items == [] then Some([])
    else
      var first, rest := AsTreeNode(items[0]), AsTreeNodes(items[1..]);
      if first.None? || rest.None? then None else Some([first.value] + rest.value)
  }

  function LegacyGroup(j: Json): Option<PayloadNode> {
    if Member(j, "logic") == Some(JString("AND")) && IsArray(Member(j, "conditions")) then
      var conditions := AsConditions(j.members["conditions"].items);
      if conditions.None? then None else Some(Many(AND, conditions.value))
    else None
  }

  function LegacyGroups(items: seq<Json>): Option<seq<PayloadNode>> {
    if items == [] then Some([])
    else
      var first, rest := LegacyGroup(items[0]), LegacyGroups(items[1..]);
      if first.None? || rest.None? then None else Some([first.value] + rest.value)
  }

  /** `None` is the validation error. */
  function NormalizeTableFilters(j: Json): Option<PayloadNode> {
    if IsArray(Member(j, "conditions")) then
      var nodes := AsTreeNodes(j.members["conditions"].items);
      if nodes.None? then None else Some(Many(LogicOf(Member(j, "logic")), nodes.value))
    else if Member(j, "logic") == Some(JString("OR")) && IsArray(Member(j, "groups")) then
      var groups := LegacyGroups(j.members["groups"].items);
      if groups.None? then None else Some(Many(OR, groups.value))
    else None
  }

  // ---------------------------------------------------------------- re-editing

  /** New ids are drawn at random by the source; here they are blank, and trees are compared up to ids and labels. */
  function ToEditableCondition(j: Json): Option<EditorNode> {
    if IsString(Member(j, "field")) && IsString(Member(j, "operator")) then
      Some(Line("", Condition(j.members["field"].s, j.members["operator"].s,
                              if IsString(Member(j, "value")) then j.members["value"].s else "",
                              if IsString(Member(j, "valueEnd")) then Some(j.members["valueEnd"].s) else None),
                if IsString(Member(j, "valueLabel")) then Some(j.members["valueLabel"].s) else None))
    else None
  }

  function ToEditableItems(items: seq<Json>): seq<EditorNode>
  {
    if items == [] then []
    else
      (if IsArray(Member(items[0], "conditions")) then
         [Group("", LogicOf(Member(items[0], "logic")), ToEditableLines(items[0].members["conditions"].items))]
       else
         var c := ToEditableCondition(items[0]);
         if c.Some? then [c.value] else [])
      + ToEditableItems(items[1..])
  }

  /** The items of a subgroup: groups are skipped there. */
  function ToEditableLines(items: seq<Json>): seq<EditorNode> {
    if items == [] then []
    else
      (if IsArray(Member(items[0], "conditions")) then []
       else
         var c := ToEditableCondition(items[0]);
         if c.Some? then [c.value] else [])
      + ToEditableLines(items[1..])
  }

  function ToEditableGroup(j: Json): EditorNode {
    Group("", LogicOf(Member(j, "logic")), if IsArray(Member(j, "conditions")) then ToEditableItems(j.members["conditions"].items) else [])
  }

  /** A tree without ids and labels. */
  function Bare(node: EditorNode): EditorNode {
    match node
    case Line(_, c, _) => Line("", c, None)
    case Group(_, logic, children) => Group("", logic, BareAll(children))
  }

  function BareAll(nodes: seq<EditorNode>): seq<EditorNode> {
    if nodes == [] then [] else [Bare(nodes[0])] + BareAll(nodes[1..])
  }

  // ---------------------------------------------------------------- main results: the path to the server

  lemma ConditionJsonMembers(c: Condition)
    ensures var j := ConditionJson(c);
      && Member(j, "field") == Some(JString(c.field)) && Member(j, "operator") == Some(JString(c.operator))
      && Member(j, "value") == Some(JString(c.value)) && Member(j, "conditions").None? && Member(j, "valueLabel").None?
      && Member(j, "logic").None?
      && Member(j, "valueEnd") == (if c.valueEnd.Some? then Some(JString(c.valueEnd.value)) else None)
  {
  }

  lemma ManyJsonMembers(logic: Logic, conditions: seq<PayloadNode>)
    ensures var j := ToJson(Many(logic, conditions));
      && Member(j, "logic") == Some(JString(LogicName(logic))) && Member(j, "conditions") == Some(JArray(ToJsons(conditions)))
      && Member(j, "field").None? && LogicOf(Member(j, "logic")) == logic
  {
  }

  /** Conditions, and groups of conditions only. */
  predicate TwoLevels(p: PayloadNode) {
    p.One? || forall q :: q in p.conditions ==> q.One?
  }

  lemma {:induction false} LinesPayload(nodes: seq<EditorNode>)
    requires forall x :: x in nodes ==> x.Line?
    ensures forall q :: q in ToPayloads(nodes) ==> q.One?
  {
    if nodes != [] {
      LinesPayload(nodes[1..]);
    }
  }

  ghost predicate LinesOnly(nodes: seq<EditorNode>) {
    forall x :: x in nodes ==> x.Line?
  }

  /** Groups in the list hold lines, and at least one. */
  ghost predicate Shallow(nodes: seq<EditorNode>) {
    forall x :: x in nodes && x.Group? ==> x.children != [] && LinesOnly(x.children)
  }

  lemma {:induction false} PrunedIsShallow(children: seq<EditorNode>)
    ensures Shallow(PruneChildren(children))
  {
    if children != [] {
      PrunedIsShallow(children[1..]);
      assert Shallow(PruneOne(children[0]));
    }
  }

  lemma {:induction false} ShallowPayload(nodes: seq<EditorNode>)
    requires Shallow(nodes)
    ensures forall q :: q in ToPayloads(nodes) ==> TwoLevels(q) && (q.Many? ==> q.conditions != [])
  {
    if nodes != [] {
      assert nodes[0] in nodes;
      ShallowPayload(nodes[1..]);
      if nodes[0].Group? {
        LinesPayload(nodes[0].children);
      }
    }
  }

  /** What the grammar asks of one condition. */
  predicate Acceptable(c: Condition) {
    && 1 <= |c.field| <= MAX_FIELD_LENGTH && c.operator in TABLE_FILTER_OPERATORS
    && (c.valueEnd.Some? <==> c.operator == "BETWEEN")
  }

  predicate AcceptableNode(p: PayloadNode) {
    match p
    case One(c) => Acceptable(c)
    case Many(_, conditions) => forall q :: q in conditions ==> q.One? && Acceptable(q.condition)
  }

  function Groups(ps: seq<PayloadNode>): nat {
    if ps == [] then 0 else (if ps[0].Many? then 1 else 0) + Groups(ps[1..])
  }

  function Conditions(ps: seq<PayloadNode>): nat {
    if ps == [] then 0 else (if ps[0].Many? then |ps[0].conditions| else 1) + Conditions(ps[1..])
  }

  /** The limits of the grammar, counted on the payload. */
  predicate WithinLimits(ps: seq<PayloadNode>) {
    Groups(ps) <= TABLE_FILTER_MAX_GROUPS && Conditions(ps) <= TABLE_FILTER_MAX_CONDITIONS
  }

  predicate ItemAccepted(item: Json) {
    IsFilterCondition(item) || IsFilterSubGroup(item)
  }

  predicate NodeFits(p: PayloadNode) {
    AcceptableNode(p) && (p.Many? ==> |p.conditions| <= TABLE_FILTER_MAX_CONDITIONS)
  }

  lemma OneItem(p: PayloadNode)
    requires TwoLevels(p) && (p.Many? ==> p.conditions != [])
    ensures ItemAccepted(ToJson(p)) <==> NodeFits(p)
    ensures IsFilterCondition(ToJson(p)) ==> p.One?
    ensures IsFilterSubGroup(ToJson(p)) ==> p.Many?
    ensures p.Many? ==> !IsFilterCondition(ToJson(p)) && Member(ToJson(p), "conditions") == Some(JArray(ToJsons(p.conditions)))
  {
  }

  /** Accepted items are counted as the payload counts them. */
  lemma {:induction false} ItemsCounted(ps: seq<PayloadNode>)
    requires forall p :: p in ps ==> TwoLevels(p) && (p.Many? ==> p.conditions != [])
    requires forall item :: item in ToJsons(ps) ==> ItemAccepted(item)
    ensures CountGroups(ToJsons(ps)) == Groups(ps) && CountConditions(ToJsons(ps)) == Conditions(ps)
  {
    if ps != [] {
      assert ps[0] in ps;
      OneItem(ps[0]);
      ItemsCounted(ps[1..]);
      assert ItemAccepted(ToJsons(ps)[0]);
    }
  }

  lemma {:induction false} ItemsAccepted(ps: seq<PayloadNode>)
    requires forall p :: p in ps ==> TwoLevels(p) && (p.Many? ==> p.conditions != [])
    ensures (forall item :: item in ToJsons(ps) ==> ItemAccepted(item)) <==> forall p :: p in ps ==> NodeFits(p)
  {
    forall i | 0 <= i < |ps| ensures ItemAccepted(ToJsons(ps)[i]) <==> NodeFits(ps[i]) {
      assert ps[i] in ps;
      OneItem(ps[i]);
    }
  }

  lemma {:induction false} SubgroupsAreSmall(ps: seq<PayloadNode>, p: PayloadNode)
    requires p in ps && p.Many?
    ensures |p.conditions| <= Conditions(ps)
  {
    if p != ps[0] {
      SubgroupsAreSmall(ps[1..], p);
    }
  }

  /**
   * The grammar accepts what the editor sends exactly when it is within the limits and every populated condition has a
   * usable field name, a known operator, and an end value just for BETWEEN.
   */
  lemma PayloadAcceptedExactly(root: EditorNode)
    requires root.Group? && BuildFilterTreePayload(root).Some?
    ensures var p := BuildFilterTreePayload(root).value;
      IsFilterTree(ToJson(p)) <==> WithinLimits(p.conditions) && forall q :: q in p.conditions ==> AcceptableNode(q)
  {
    var children := PruneChildren(root.children);
    var p := BuildFilterTreePayload(root).value;
    PrunedIsShallow(root.children);
    ShallowPayload(children);
    ManyJsonMembers(p.logic, p.conditions);
    ItemsAccepted(p.conditions);
    if forall item :: item in ToJsons(p.conditions) ==> ItemAccepted(item) {
      ItemsCounted(p.conditions);
    }
    forall q | q in p.conditions && q.Many? && WithinLimits(p.conditions)
      ensures |q.conditions| <= TABLE_FILTER_MAX_CONDITIONS
    {
      SubgroupsAreSmall(p.conditions, q);
    }
  }

  // ---------------------------------------------------------------- removing a line

  /** `removeConditionFromTree`: a group that becomes empty shows a blank line again. */
  function Refill(children: seq<EditorNode>, blank: EditorNode): seq<EditorNode> {
    if children == [] then [blank] else children
  }

  function RemoveLine(children: seq<EditorNode>, id: string, blank: EditorNode): seq<EditorNode> {
    if children == [] then [] else RemoveFrom(children[0], id, blank) + RemoveLine(children[1..], id, blank)
  }

  function RemoveFrom(child: EditorNode, id: string, blank: EditorNode): seq<EditorNode> {
    match child
    case Line(i, _, _) => if i == id then [] else [child]
    case Group(i, logic, inner) => [Group(i, logic, Refill(RemoveLine(inner, id, blank), blank))]
  }

  function RemoveConditionFromTree(root: EditorNode, id: string, blank: EditorNode): EditorNode
    requires root.Group?
  {
    root.(children := Refill(RemoveLine(root.children, id, blank), blank))
  }

  /** A pruned tree without the lines of that id, and without the groups that leaves empty. */
  function WithoutLine(children: seq<EditorNode>, id: string): seq<EditorNode> {
    if children == [] then []
    else
      (match children[0]
       case Line(i, _, _) => if i == id then [] else [children[0]]
       case Group(i, logic, inner) => if WithoutLine(inner, id) == [] then [] else [Group(i, logic, WithoutLine(inner, id))])
      + WithoutLine(children[1..], id)
  }

  predicate IsBlank(node: EditorNode) {
    node.Line? && !IsPopulated(node.condition)
  }

  lemma {:induction false} PopulatedConcat(a: seq<EditorNode>, b: seq<EditorNode>)
    ensures PopulatedLines(a + b) == PopulatedLines(a) + PopulatedLines(b)
  {
    if a == [] {
      assert a + b == b;
    } else {
      ConcatHead(a, b);
      PopulatedConcat(a[1..], b);
    }
  }

  lemma {:induction false} PruneConcat(a: seq<EditorNode>, b: seq<EditorNode>)
    ensures PruneChildren(a + b) == PruneChildren(a) + PruneChildren(b)
  {
    if a == [] {
      assert a + b == b;
    } else {
      ConcatHead(a, b);
      PruneConcat(a[1..], b);
    }
  }

  lemma {:induction false} WithoutConcat(a: seq<EditorNode>, b: seq<EditorNode>, id: string)
    ensures WithoutLine(a + b, id) == WithoutLine(a, id) + WithoutLine(b, id)
  {
    if a == [] {
      assert a + b == b;
    } else {
      ConcatHead(a, b);
      WithoutConcat(a[1..], b, id);
    }
  }

  lemma {:induction false} LinesAfterRemoving(inner: seq<EditorNode>, id: string, blank: EditorNode)
    requires IsBlank(blank)
    ensures PopulatedLines(RemoveLine(inner, id, blank)) == WithoutLine(PopulatedLines(inner), id)
  {
    if inner != [] {
      var first, tail := inner[0], inner[1..];
      LinesAfterRemoving(tail, id, blank);
      PopulatedConcat(RemoveFrom(first, id, blank), RemoveLine(tail, id, blank));
      var shown := if first.Line? && IsPopulated(first.condition) then [first] else [];
      WithoutConcat(shown, PopulatedLines(tail), id);
      assert PopulatedLines(inner) == shown + PopulatedLines(tail);
    }
  }

  lemma RefillIsPruned(children: seq<EditorNode>, blank: EditorNode)
    requires IsBlank(blank)
    ensures PopulatedLines(Refill(children, blank)) == PopulatedLines(children)
    ensures PruneChildren(Refill(children, blank)) == PruneChildren(children)
  {
    if children == [] {
      assert [blank][1..] == [];
    }
  }

  lemma PruneOneAfterRemoving(child: EditorNode, id: string, blank: EditorNode)
    requires IsBlank(blank) && child.Group?
    ensures PruneOne(child.(children := Refill(RemoveLine(child.children, id, blank), blank))) == WithoutLine(PruneOne(child), id)
  {
    RefillIsPruned(RemoveLine(child.children, id, blank), blank);
    LinesAfterRemoving(child.children, id, blank);
  }

  lemma {:induction false} PruneAfterRemoving(children: seq<EditorNode>, id: string, blank: EditorNode)
    requires IsBlank(blank)
    ensures PruneChildren(RemoveLine(children, id, blank)) == WithoutLine(PruneChildren(children), id)
  {
    if children != [] {
      var first, tail := children[0], children[1..];
      PruneAfterRemoving(tail, id, blank);
      PruneConcat(RemoveFrom(first, id, blank), RemoveLine(tail, id, blank));
      WithoutConcat(PruneOne(first), PruneChildren(tail), id);
      assert PruneChildren(RemoveFrom(first, id, blank)) == WithoutLine(PruneOne(first), id) by {
        if first.Group? {
          PruneOneAfterRemoving(first, id, blank);
        }
      }
    }
  }

  /** Removing a line and sending is sending without that line; what else was sent does not change. */
  lemma RemovingTakesOnlyThatLine(root: EditorNode, id: string, blank: EditorNode)
    requires root.Group? && IsBlank(blank)
    ensures Prune(RemoveConditionFromTree(root, id, blank)) == root.(children := WithoutLine(Prune(root).children, id))
  {
    RefillIsPruned(RemoveLine(root.children, id, blank), blank);
    PruneAfterRemoving(root.children, id, blank);
  }

  /** No group without a line or group in it. */
  ghost predicate NoneEmpty(nodes: seq<EditorNode>) {
    nodes != [] && forall x :: x in nodes && x.Group? ==> NoneEmpty(x.children)
  }

  lemma {:induction false} RemovedLeavesNoneEmpty(children: seq<EditorNode>, id: string, blank: EditorNode)
    requires blank.Line?
    ensures NoneEmpty(Refill(RemoveLine(children, id, blank), blank))
  {
    var left := RemoveLine(children, id, blank);
    if children != [] {
      RemovedLeavesNoneEmpty(children[1..], id, blank);
      if children[0].Group? {
        RemovedLeavesNoneEmpty(children[0].children, id, blank);
      }
    }
  }

  /** After a line is removed every group still shows a line, if need be a blank one. */
  lemma RemovingLeavesNoneEmpty(root: EditorNode, id: string, blank: EditorNode)
    requires root.Group? && blank.Line?
    ensures NoneEmpty([RemoveConditionFromTree(root, id, blank)])
  {
    RemovedLeavesNoneEmpty(root.children, id, blank);
  }

  // ---------------------------------------------------------------- validation before sending

  /** The two checks of `validateFilterTree` on one line; the formats of numbers, dates and times are given. */
  predicate LineValid(c: Condition, wellFormed: (string, string) -> bool) {
    if c.operator in NO_VALUE_OPERATORS then true
    else if c.operator == "BETWEEN" then
      var hasStart, hasEnd := Trim(c.value) != "", Trim(c.valueEnd.GetOr("")) != "";
      hasStart == hasEnd && (hasStart ==> wellFormed(c.field, c.value) && wellFormed(c.field, c.valueEnd.GetOr("")))
    else Trim(c.value) != "" ==> wellFormed(c.field, c.value)
  }

  /** `flattenConditions` */
  function Flatten(nodes: seq<EditorNode>): seq<Condition> {
    if nodes == [] then []
    else (if nodes[0].Line? then [nodes[0].condition] else Flatten(nodes[0].children)) + Flatten(nodes[1..])
  }

  function Validate(conditions: seq<Condition>, wellFormed: (string, string) -> bool): seq<Condition> {
    if conditions == [] then []
    else (if LineValid(conditions[0], wellFormed) then [] else [conditions[0]]) + Validate(conditions[1..], wellFormed)
  }

  /** No error means that every line is valid. */
  lemma {:induction false} ValidateMeaning(conditions: seq<Condition>, wellFormed: (string, string) -> bool)
    ensures Validate(conditions, wellFormed) == [] <==> forall c :: c in conditions ==> LineValid(c, wellFormed)
  {
    if conditions != [] {
      ValidateMeaning(conditions[1..], wellFormed);
    }
  }

  lemma ValidateStep(errors: seq<Condition>, conditions: seq<Condition>, i: nat, wellFormed: (string, string) -> bool)
    requires i < |conditions|
    ensures errors + Validate(conditions[i..], wellFormed)
         == (if LineValid(conditions[i], wellFormed) then errors else errors + [conditions[i]]) + Validate(conditions[i + 1..], wellFormed)
  {
    assert conditions[i..][1..] == conditions[i + 1..];
  }

  /** The body of the loop at advanced-filter.ts:300-333. */
  method CheckLine(c: Condition, wellFormed: (string, string) -> bool) returns (valid: bool)
    ensures valid <==> LineValid(c, wellFormed)
  {
    if c.operator in NO_VALUE_OPERATORS {
      return true;
    }
    var end := c.valueEnd.GetOr("");
    if c.operator == "BETWEEN" {
      var hasStart, hasEnd := Trim(c.value) != "", Trim(end) != "";
      if hasStart != hasEnd {
        return false;
      }
      if !hasStart {
        return true;
      }
      return wellFormed(c.field, c.value) && wellFormed(c.field, end);
    }
    valid := Trim(c.value) == "" || wellFormed(c.field, c.value);
  }

  /** Each error names its line. */
  method ValidateFilterTree(root: EditorNode, wellFormed: (string, string) -> bool) returns (errors: seq<Condition>)
    requires root.Group?
    ensures errors == Validate(Flatten(root.children), wellFormed)
  {
    errors := [];
    var conditions := Flatten(root.children);
    for i := 0 to |conditions|
      invariant errors + Validate(conditions[i..], wellFormed) == Validate(conditions, wellFormed)
    {
      ValidateStep(errors, conditions, i, wellFormed);
      var valid := CheckLine(conditions[i], wellFormed);
      if !valid {
        errors := errors + [conditions[i]];
      }
    }
    assert conditions[|conditions|..] == [];
  }

  /** A field the whitelist can know, an operator of the matrix, and no end value left behind on another operator. */
  predicate EditorShaped(c: Condition) {
    1 <= |c.field| <= MAX_FIELD_LENGTH && c.operator in TABLE_FILTER_OPERATORS && (c.valueEnd.Some? ==> c.operator == "BETWEEN")
  }

  lemma {:induction false} LinesFrom(children: seq<EditorNode>, x: EditorNode)
    requires x in PopulatedLines(children)
    ensures x.condition in Flatten(children)
  {
    if children[0] != x {
      LinesFrom(children[1..], x);
    }
  }

  /** Every condition that survives pruning is a populated line of the tree. */
  lemma {:induction false} PrunedFrom(children: seq<EditorNode>, x: EditorNode)
    requires x in PruneChildren(children)
    ensures x.Line? ==> IsPopulated(x.condition) && x.condition in Flatten(children)
    ensures x.Group? ==> forall y :: y in x.children ==> y.Line? && IsPopulated(y.condition) && y.condition in Flatten(children)
  {
    if x in PruneOne(children[0]) {
      if x.Group? {
        forall y | y in x.children ensures y.condition in Flatten(children) {
          LinesFrom(children[0].children, y);
        }
      }
    } else {
      PrunedFrom(children[1..], x);
    }
  }

  /** A valid populated line of editor shape is acceptable: a BETWEEN that passed validation has its end. */
  lemma ValidIsAcceptable(c: Condition, wellFormed: (string, string) -> bool)
    requires IsPopulated(c) && LineValid(c, wellFormed) && EditorShaped(c)
    ensures Acceptable(c)
  {
    if c.operator == "BETWEEN" {
      assert Trim("") == "";
    }
  }

  lemma {:induction false} PayloadOrigin(nodes: seq<EditorNode>, q: PayloadNode) returns (x: EditorNode)
    requires q in ToPayloads(nodes)
    ensures x in nodes && q == ToPayload(x)
  {
    if q == ToPayload(nodes[0]) {
      x := nodes[0];
    } else {
      x := PayloadOrigin(nodes[1..], q);
    }
  }

  /** A tree that passes validation, has editor-shaped lines and is within the limits is sent as nothing or as an accepted payload. */
  lemma ValidTreesAreAccepted(root: EditorNode, wellFormed: (string, string) -> bool)
    requires root.Group? && Validate(Flatten(root.children), wellFormed) == []
    requires forall c :: c in Flatten(root.children) ==> EditorShaped(c)
    requires BuildFilterTreePayload(root).Some? ==> WithinLimits(BuildFilterTreePayload(root).value.conditions)
    ensures BuildFilterTreePayload(root).Some? ==> IsFilterTree(ToJson(BuildFilterTreePayload(root).value))
  {
    if BuildFilterTreePayload(root).Some? {
      var p := BuildFilterTreePayload(root).value;
      PayloadAcceptedExactly(root);
      ValidateMeaning(Flatten(root.children), wellFormed);
      forall q | q in p.conditions ensures AcceptableNode(q) {
        var x := PayloadOrigin(PruneChildren(root.children), q);
        PrunedFrom(root.children, x);
        if x.Line? {
          ValidIsAcceptable(x.condition, wellFormed);
        } else {
          forall r | r in q.conditions ensures r.One? && Acceptable(r.condition) {
            var y := PayloadOrigin(x.children, r);
            ValidIsAcceptable(y.condition, wellFormed);
          }
        }
      }
    }
  }

  // ---------------------------------------------------------------- normalising what was sent

  lemma {:induction false} AsConditionsBack(ps: seq<PayloadNode>)
    requires forall q :: q in ps ==> q.One?
    ensures AsConditions(ToJsons(ps)) == Some(ps)
    ensures forall item :: item in ToJsons(ps) ==> !IsArray(Member(item, "conditions"))
  {
    if ps != [] {
      assert ps[0] in ps && ps == [ps[0]] + ps[1..];
      ConditionJsonMembers(ps[0].condition);
      AsConditionsBack(ps[1..]);
      assert ToJsons(ps)[1..] == ToJsons(ps[1..]);
    }
  }

  lemma AsTreeNodeBack(p: PayloadNode)
    requires TwoLevels(p)
    ensures AsTreeNode(ToJson(p)) == Some(p)
  {
    match p
    case One(c) => ConditionJsonMembers(c);
    case Many(logic, conditions) =>
      ManyJsonMembers(logic, conditions);
      AsConditionsBack(conditions);
  }

  lemma {:induction false} AsTreeNodesBack(ps: seq<PayloadNode>)
    requires forall q :: q in ps ==> TwoLevels(q)
    ensures AsTreeNodes(ToJsons(ps)) == Some(ps)
  {
    if ps != [] {
      assert ps[0] in ps && ps == [ps[0]] + ps[1..];
      AsTreeNodeBack(ps[0]);
      AsTreeNodesBack(ps[1..]);
      assert ToJsons(ps)[1..] == ToJsons(ps[1..]);
    }
  }

  /** The server's normalisation returns the editor's payload unchanged. */
  lemma NormalizingKeepsThePayload(root: EditorNode)
    requires root.Group? && BuildFilterTreePayload(root).Some?
    ensures NormalizeTableFilters(ToJson(BuildFilterTreePayload(root).value)) == BuildFilterTreePayload(root)
  {
    var p := BuildFilterTreePayload(root).value;
    PrunedIsShallow(root.children);
    ShallowPayload(PruneChildren(root.children));
    ManyJsonMembers(p.logic, p.conditions);
    AsTreeNodesBack(p.conditions);
  }

  lemma {:induction false} OneRefusedRefusesAll(items: seq<Json>, i: nat)
    requires i < |items| && AsTreeNode(items[i]).None?
    ensures AsTreeNodes(items).None?
  {
    if i > 0 {
      OneRefusedRefusesAll(items[1..], i - 1);
    }
  }

  /** A group inside a group of the tree is refused, even if it could be read as a condition. */
  lemma {:induction false} ThirdLevelIsRefused(j: Json, i: nat, k: nat)
    requires IsArray(Member(j, "conditions")) && i < |j.members["conditions"].items|
    requires var item := j.members["conditions"].items[i];
      IsArray(Member(item, "conditions")) && k < |item.members["conditions"].items| &&
      IsArray(Member(item.members["conditions"].items[k], "conditions"))
    ensures NormalizeTableFilters(j) == None
  {
    var items := j.members["conditions"].items;
    assert items[i].members["conditions"].items[k] in items[i].members["conditions"].items;
    OneRefusedRefusesAll(items, i);
  }

  // ---------------------------------------------------------------- editing again what was sent

  lemma {:induction false} LinesBack(nodes: seq<EditorNode>)
    requires LinesOnly(nodes)
    ensures BareAll(ToEditableLines(ToJsons(ToPayloads(nodes)))) == BareAll(nodes)
  {
    if nodes != [] {
      LinesBack(nodes[1..]);
      ConditionJsonMembers(nodes[0].condition);
      var items := ToJsons(ToPayloads(nodes));
      assert items[1..] == ToJsons(ToPayloads(nodes[1..])) by {
        assert ToPayloads(nodes)[1..] == ToPayloads(nodes[1..]);
      }
      var again := ToEditableLines(items);
      assert again == [again[0]] + ToEditableLines(items[1..]);
      assert again[1..] == ToEditableLines(items[1..]);
    }
  }

  lemma {:induction false} ItemsBack(nodes: seq<EditorNode>)
    requires Shallow(nodes)
    ensures BareAll(ToEditableItems(ToJsons(ToPayloads(nodes)))) == BareAll(nodes)
  {
    if nodes != [] {
      assert nodes[0] in nodes;
      ItemsBack(nodes[1..]);
      var items := ToJsons(ToPayloads(nodes));
      assert items[1..] == ToJsons(ToPayloads(nodes[1..])) by {
        assert ToPayloads(nodes)[1..] == ToPayloads(nodes[1..]);
      }
      match nodes[0] {
        case Line(_, c, _) => ConditionJsonMembers(c);
        case Group(_, logic, children) =>
          ManyJsonMembers(logic, ToPayloads(children));
          LinesBack(children);
      }
      var again := ToEditableItems(items);
      assert again == [again[0]] + ToEditableItems(items[1..]);
      assert again[1..] == ToEditableItems(items[1..]);
    }
  }

  /** Editing a sent filter again shows the pruned tree, up to ids and labels. */
  lemma ReEditingShowsThePrunedTree(root: EditorNode)
    requires root.Group? && BuildFilterTreePayload(root).Some?
    ensures Bare(ToEditableGroup(ToJson(BuildFilterTreePayload(root).value))) == Bare(Prune(root))
  {
    var p := BuildFilterTreePayload(root).value;
    PrunedIsShallow(root.children);
    ManyJsonMembers(p.logic, p.conditions);
    ItemsBack(PruneChildren(root.children));
  }

  // ---------------------------------------------------------------- sending keeps the meaning

  /** A line somebody filled in: a value that is not all blanks, or an operator that needs none. */
  ghost predicate FilledIn(c: Condition) {
    !Blank(c.value) ||
    c.operator in {"IS_EMPTY", "IS_NOT_EMPTY", "TODAY", "THIS_WEEK", "THIS_MONTH", "THIS_YEAR", "LAST_7_DAYS", "LAST_30_DAYS"}
  }

  ghost predicate FilledLine(node: EditorNode) {
    node.Line? && FilledIn(node.condition)
  }

  /** A filled-in line, or a group with one. */
  ghost predicate Matters(node: EditorNode) {
    FilledLine(node) || (node.Group? && exists x :: x in node.children && FilledLine(x))
  }

  /** A line by its verdict, a group by its logic over its filled-in lines. */
  ghost predicate NodeSatisfied(node: EditorNode, truth: Condition -> bool) {
    match node
    case Line(_, c, _) => truth(c)
    case Group(_, logic, children) =>
      if logic.AND? then AllLines(children, truth) else SomeLine(children, truth)
  }

  ghost predicate AllLines(children: seq<EditorNode>, truth: Condition -> bool) {
    forall x :: x in children && FilledLine(x) ==> truth(x.condition)
  }

  ghost predicate SomeLine(children: seq<EditorNode>, truth: Condition -> bool) {
    exists x :: x in children && FilledLine(x) && truth(x.condition)
  }

  ghost predicate AllNodes(children: seq<EditorNode>, truth: Condition -> bool) {
    forall x :: x in children && Matters(x) ==> NodeSatisfied(x, truth)
  }

  ghost predicate SomeNode(children: seq<EditorNode>, truth: Condition -> bool) {
    exists x :: x in children && Matters(x) && NodeSatisfied(x, truth)
  }

  /** What the editor shows, lines and groups without a word ignored. */
  ghost predicate Satisfied(root: EditorNode, truth: Condition -> bool)
    requires root.Group?
  {
    if root.logic.AND? then AllNodes(root.children, truth) else SomeNode(root.children, truth)
  }

  lemma PopulatedMeaning(c: Condition)
    ensures IsPopulated(c) <==> FilledIn(c)
  {
    TrimMeaning(c.value);
  }

  lemma {:induction false} HeadHolds(head: PayloadNode, later: seq<PayloadNode>, truth: Condition -> bool)
    ensures AllSent([head] + later, truth) <==> Holds(head, truth) && AllSent(later, truth)
    ensures SomeSent([head] + later, truth) <==> Holds(head, truth) || SomeSent(later, truth)
  {
    assert forall q :: q in [head] + later <==> q == head || q in later;
    assert head in [head] + later;
  }

  ghost predicate AllSent(sent: seq<PayloadNode>, truth: Condition -> bool) {
    forall q :: q in sent ==> Holds(q, truth)
  }

  ghost predicate SomeSent(sent: seq<PayloadNode>, truth: Condition -> bool) {
    exists q :: q in sent && Holds(q, truth)
  }

  lemma {:induction false} LinesCons(children: seq<EditorNode>, truth: Condition -> bool)
    requires children != []
    ensures var first, rest := children[0], children[1..];
      && (AllLines(children, truth) <==> (FilledLine(first) ==> truth(first.condition)) && AllLines(rest, truth))
      && (SomeLine(children, truth) <==> (FilledLine(first) && truth(first.condition)) || SomeLine(rest, truth))
      && ((forall x :: x in children ==> !FilledLine(x)) <==> !FilledLine(first) && forall x :: x in rest ==> !FilledLine(x))
  {
    assert forall x :: x in children <==> x == children[0] || x in children[1..];
  }

  lemma {:induction false} NodesCons(children: seq<EditorNode>, truth: Condition -> bool)
    requires children != []
    ensures var first, rest := children[0], children[1..];
      && (AllNodes(children, truth) <==> (Matters(first) ==> NodeSatisfied(first, truth)) && AllNodes(rest, truth))
      && (SomeNode(children, truth) <==> (Matters(first) && NodeSatisfied(first, truth)) || SomeNode(rest, truth))
      && ((forall x :: x in children ==> !Matters(x)) <==> !Matters(first) && forall x :: x in rest ==> !Matters(x))
  {
    assert forall x :: x in children <==> x == children[0] || x in children[1..];
  }

  lemma {:induction false} FilledLinesHold(children: seq<EditorNode>, truth: Condition -> bool)
    ensures PopulatedLines(children) == [] <==> forall x :: x in children ==> !FilledLine(x)
    ensures AllSent(ToPayloads(PopulatedLines(children)), truth) <==> AllLines(children, truth)
    ensures SomeSent(ToPayloads(PopulatedLines(children)), truth) <==> SomeLine(children, truth)
  {
    if children != [] {
      var first, rest := children[0], children[1..];
      FilledLinesHold(rest, truth);
      LinesCons(children, truth);
      if first.Line? {
        PopulatedMeaning(first.condition);
      }
      var later := PopulatedLines(rest);
      assert [] + later == later;
      if FilledLine(first) {
        assert ([first] + later)[1..] == later;
        HeadHolds(One(first.condition), ToPayloads(later), truth);
      }
    }
  }

  lemma {:induction false} NodesHold(children: seq<EditorNode>, truth: Condition -> bool)
    ensures PruneChildren(children) == [] <==> forall x :: x in children ==> !Matters(x)
    ensures AllSent(ToPayloads(PruneChildren(children)), truth) <==> AllNodes(children, truth)
    ensures SomeSent(ToPayloads(PruneChildren(children)), truth) <==> SomeNode(children, truth)
  {
    if children != [] {
      var first, rest := children[0], children[1..];
      NodesHold(rest, truth);
      NodesCons(children, truth);
      NodeHolds(first, truth);
      var later := PruneChildren(rest);
      assert [] + later == later;
      if Matters(first) {
        var kept := PruneOne(first)[0];
        assert PruneOne(first) == [kept] && ([kept] + later)[1..] == later;
        HeadHolds(ToPayload(kept), ToPayloads(later), truth);
      }
    }
  }

  lemma {:induction false} NodeHolds(node: EditorNode, truth: Condition -> bool)
    ensures if Matters(node) then |PruneOne(node)| == 1 && (Holds(ToPayload(PruneOne(node)[0]), truth) <==> NodeSatisfied(node, truth))
            else PruneOne(node) == []
  {
    match node
    case Line(_, c, _) => PopulatedMeaning(c);
    case Group(_, _, children) => FilledLinesHold(children, truth);
  }

  /**
   * Sending keeps the meaning: nothing is sent exactly if nothing is filled in, and what is sent holds, whatever the
   * verdicts on its conditions, exactly when what the editor shows is satisfied.
   */
  lemma SendingKeepsTheMeaning(root: EditorNode, truth: Condition -> bool)
    requires root.Group?
    ensures BuildFilterTreePayload(root).None? <==> forall x :: x in root.children ==> !Matters(x)
    ensures BuildFilterTreePayload(root).Some? ==> (Holds(BuildFilterTreePayload(root).value, truth) <==> Satisfied(root, truth))
  {
    NodesHold(root.children, truth);
  }

  // ---------------------------------------------------------------- legacy forms keep their meaning

  /** The verdict of a tree when each condition's verdict is given. */
  predicate Holds(p: PayloadNode, truth: Condition -> bool) {
    match p
    case One(c) => truth(c)
    case Many(logic, conditions) =>
      if logic.AND? then forall q :: q in conditions ==> Holds(q, truth) else exists q :: q in conditions && Holds(q, truth)
  }

  /** The old `groups` protocol: every group a list of conditions. */
  function OldGroupsJson(groups: seq<seq<Condition>>): seq<Json> {
    if groups == [] then []
    else
      [ToJson(Many(AND, Lines(groups[0])))] + OldGroupsJson(groups[1..])
  }

  function Lines(conditions: seq<Condition>): (r: seq<PayloadNode>)
    ensures |r| == |conditions| && forall i :: 0 <= i < |conditions| ==> r[i] == One(conditions[i])
  {
    seq(|conditions|, i requires 0 <= i < |conditions| => One(conditions[i]))
  }

  /** AND inside a group, OR between groups. */
  predicate OldRule(groups: seq<seq<Condition>>, truth: Condition -> bool) {
    exists g :: g in groups && forall c :: c in g ==> truth(c)
  }

  lemma LinesHold(conditions: seq<Condition>, truth: Condition -> bool)
    ensures Holds(Many(AND, Lines(conditions)), truth) <==> forall c :: c in conditions ==> truth(c)
    ensures Holds(Many(OR, Lines(conditions)), truth) <==> exists c :: c in conditions && truth(c)
  {
    var lines := Lines(conditions);
    assert forall i :: 0 <= i < |conditions| ==> lines[i] in lines && lines[i] == One(conditions[i]);
    forall q | q in lines ensures q.One? && q.condition in conditions {
      var i :| 0 <= i < |lines| && lines[i] == q;
    }
    forall c | c in conditions ensures One(c) in lines {
      var i :| 0 <= i < |conditions| && conditions[i] == c;
      assert lines[i] == One(c);
    }
  }

  function OldGroups(groups: seq<seq<Condition>>): (r: seq<PayloadNode>)
    ensures |r| == |groups| && forall i :: 0 <= i < |groups| ==> r[i] == Many(AND, Lines(groups[i]))
  {
    seq(|groups|, i requires 0 <= i < |groups| => Many(AND, Lines(groups[i])))
  }

  lemma OldGroupParsed(conditions: seq<Condition>)
    ensures LegacyGroup(ToJson(Many(AND, Lines(conditions)))) == Some(Many(AND, Lines(conditions)))
  {
    ManyJsonMembers(AND, Lines(conditions));
    AsConditionsBack(Lines(conditions));
  }

  lemma {:induction false} OldGroupsParsed(groups: seq<seq<Condition>>)
    ensures LegacyGroups(OldGroupsJson(groups)) == Some(OldGroups(groups))
  {
    if groups != [] {
      OldGroupsParsed(groups[1..]);
      OldGroupParsed(groups[0]);
      assert OldGroups(groups) == [Many(AND, Lines(groups[0]))] + OldGroups(groups[1..]);
      assert OldGroupsJson(groups) == [OldGroupsJson(groups)[0]] + OldGroupsJson(groups[1..]);
    }
  }

  lemma OldGroupsHold(groups: seq<seq<Condition>>, truth: Condition -> bool)
    ensures (exists q :: q in OldGroups(groups) && Holds(q, truth)) <==> OldRule(groups, truth)
  {
    var nodes := OldGroups(groups);
    forall i | 0 <= i < |groups| ensures Holds(nodes[i], truth) <==> forall c :: c in groups[i] ==> truth(c) {
      LinesHold(groups[i], truth);
    }
    if OldRule(groups, truth) {
      var g :| g in groups && forall c :: c in g ==> truth(c);
      var i :| 0 <= i < |groups| && groups[i] == g;
      assert nodes[i] in nodes && Holds(nodes[i], truth);
    }
    if q :| q in nodes && Holds(q, truth) {
      var i :| 0 <= i < |nodes| && nodes[i] == q;
      assert groups[i] in groups;
    }
  }

  /** An old `groups` payload normalises to a tree that keeps its meaning. */
  lemma OldPayloadKeepsItsMeaning(groups: seq<seq<Condition>>, truth: Condition -> bool)
    ensures var tree := NormalizeTableFilters(JObject(map["logic" := JString("OR"), "groups" := JArray(OldGroupsJson(groups))]));
      tree.Some? && (Holds(tree.value, truth) <==> OldRule(groups, truth))
  {
    OldGroupsParsed(groups);
    OldGroupsHold(groups, truth);
    var j := JObject(map["logic" := JString("OR"), "groups" := JArray(OldGroupsJson(groups))]);
    assert Member(j, "conditions").None? && Member(j, "groups") == Some(JArray(OldGroupsJson(groups)));
    assert NormalizeTableFilters(j) == Some(Many(OR, OldGroups(groups)));
  }

  /** The usable conditions and the groups that hold one, of an old preset. */
  datatype OldPreset = OldPreset(filters: seq<Condition>, groups: seq<seq<Condition>>, logic: Logic)

  function Singletons(conditions: seq<Condition>): (r: seq<seq<Condition>>)
    ensures |r| == |conditions| && forall i :: 0 <= i < |conditions| ==> r[i] == [conditions[i]]
  {
    seq(|conditions|, i requires 0 <= i < |conditions| => [conditions[i]])
  }

  /** The tree that `normalizePresetContent` builds from an old preset (advanced-filter.ts:441-452). */
  function PresetTree(preset: OldPreset): PayloadNode {
    if preset.groups == [] then Many(preset.logic, Lines(preset.filters))
    else
      Many(OR, OldGroups(MainGroups(preset.filters, preset.logic)) + OldGroups(preset.groups))
  }

  function MainGroups(filters: seq<Condition>, logic: Logic): seq<seq<Condition>> {
    if logic.OR? then Singletons(filters) else if filters == [] then [] else [filters]
  }

  /** Old rule: the main conditions folded by their logic, or - when there are groups - any group as well; no main conditions, no main part. */
  predicate OldPresetRule(preset: OldPreset, truth: Condition -> bool) {
    var main := if preset.logic.AND? then forall c :: c in preset.filters ==> truth(c) else exists c :: c in preset.filters && truth(c);
    if preset.groups == [] then main else (preset.filters != [] && main) || OldRule(preset.groups, truth)
  }

  lemma PresetTreeMeaning(preset: OldPreset, truth: Condition -> bool)
    ensures Holds(PresetTree(preset), truth) <==> OldPresetRule(preset, truth)
  {
    if preset.groups == [] {
      LinesHold(preset.filters, truth);
    } else {
      var main := MainGroups(preset.filters, preset.logic);
      OldGroupsHold(main, truth);
      OldGroupsHold(preset.groups, truth);
      assert forall q :: q in OldGroups(main) + OldGroups(preset.groups) <==> q in OldGroups(main) || q in OldGroups(preset.groups);
      if preset.logic.OR? {
        SingletonsRule(preset.filters, truth);
      } else if preset.filters != [] {
        assert preset.filters in [preset.filters];
      }
    }
  }

  lemma SingletonsRule(conditions: seq<Condition>, truth: Condition -> bool)
    ensures OldRule(Singletons(conditions), truth) <==> exists c :: c in conditions && truth(c)
  {
    var groups := Singletons(conditions);
    if OldRule(groups, truth) {
      var g :| g in groups && forall c :: c in g ==> truth(c);
      var i :| 0 <= i < |groups| && groups[i] == g;
      assert conditions[i] in g && conditions[i] in conditions;
    }
    if c :| c in conditions && truth(c) {
      var i :| 0 <= i < |conditions| && conditions[i] == c;
      assert groups[i] in groups && groups[i] == [c];
    }
  }

  // ---------------------------------------------------------------- old presets as they are read

  function ItemsOf(m: Option<Json>): seq<Json> {
    if IsArray(m) then m.value.items else []
  }

  /** The readable conditions of a list. */
  function ShownLines(items: seq<Json>): (r: seq<EditorNode>)
    ensures LinesOnly(r)
  {
    if items == [] then []
    else (if ToEditableCondition(items[0]).Some? then [ToEditableCondition(items[0]).value] else []) + ShownLines(items[1..])
  }

  /** The old condition groups that hold a readable condition. */
  function ShownGroups(items: seq<Json>): seq<EditorNode> {
    if items == [] then []
    else
      var lines := ShownLines(ItemsOf(Member(items[0], "conditions")));
      (if items[0].JObject? && lines != [] then [Group("", AND, lines)] else []) + ShownGroups(items[1..])
  }

  function EachAlone(lines: seq<EditorNode>): seq<EditorNode> {
    if lines == [] then [] else [Group("", AND, [lines[0]])] + EachAlone(lines[1..])
  }

  /** The main conditions beside condition groups: together, or each alone. */
  function ShownMain(filters: seq<EditorNode>, logic: Logic): seq<EditorNode> {
    if logic.OR? then EachAlone(filters) else if filters == [] then [] else [Group("", AND, filters)]
  }

  /** `normalizePresetContent` without the sort levels. */
  function NormalizePresetContent(j: Json): EditorNode {
    var filterTree := Member(j, "filterTree");
    if filterTree.Some? && filterTree.value.JObject? then ToEditableGroup(filterTree.value)
    else if IsArray(Member(j, "filters")) || IsArray(Member(j, "filterGroups")) then
      var filters, groups := ShownLines(ItemsOf(Member(j, "filters"))), ShownGroups(ItemsOf(Member(j, "filterGroups")));
      var logic := LogicOf(Member(j, "filterLogic"));
      if groups == [] then Group("", logic, filters)
      else
        Group("", OR, ShownMain(filters, logic) + groups)
    else Group("", AND, [])
  }

  function ConditionsOf(lines: seq<EditorNode>): (r: seq<Condition>)
    requires LinesOnly(lines)
    ensures |r| == |lines|
  {
    if lines == [] then [] else [lines[0].condition] + ConditionsOf(lines[1..])
  }

  /** The conditions of the groups. */
  function GroupConditions(items: seq<Json>): seq<seq<Condition>> {
    if items == [] then []
    else
      var lines := ShownLines(ItemsOf(Member(items[0], "conditions")));
      (if items[0].JObject? && lines != [] then [ConditionsOf(lines)] else []) + GroupConditions(items[1..])
  }

  /** What an old preset says. */
  function PresetOf(j: Json): OldPreset {
    OldPreset(ConditionsOf(ShownLines(ItemsOf(Member(j, "filters")))), GroupConditions(ItemsOf(Member(j, "filterGroups"))),
              LogicOf(Member(j, "filterLogic")))
  }

  lemma {:induction false} LinesPayloadIs(lines: seq<EditorNode>)
    requires LinesOnly(lines)
    ensures ToPayloads(lines) == Lines(ConditionsOf(lines))
  {
    if lines != [] {
      assert lines[0] in lines;
      LinesPayloadIs(lines[1..]);
      assert Lines(ConditionsOf(lines)) == [One(lines[0].condition)] + Lines(ConditionsOf(lines[1..]));
    }
  }

  lemma GroupPayloadIs(lines: seq<EditorNode>)
    requires LinesOnly(lines)
    ensures ToPayload(Group("", AND, lines)) == Many(AND, Lines(ConditionsOf(lines)))
  {
    LinesPayloadIs(lines);
  }

  lemma OldGroupsCons(first: seq<Condition>, rest: seq<seq<Condition>>)
    ensures OldGroups([first] + rest) == [Many(AND, Lines(first))] + OldGroups(rest)
  {
  }

  lemma {:induction false} GroupsPayloadIs(items: seq<Json>)
    ensures ToPayloads(ShownGroups(items)) == OldGroups(GroupConditions(items))
    ensures ShownGroups(items) == [] <==> GroupConditions(items) == []
  {
    if items != [] {
      GroupsPayloadIs(items[1..]);
      var lines, rest := ShownLines(ItemsOf(Member(items[0], "conditions"))), ShownGroups(items[1..]);
      if items[0].JObject? && lines != [] {
        GroupPayloadIs(lines);
        OldGroupsCons(ConditionsOf(lines), GroupConditions(items[1..]));
      } else {
        assert ShownGroups(items) == rest && GroupConditions(items) == GroupConditions(items[1..]);
      }
    }
  }

  lemma {:induction false} PayloadsConcat(a: seq<EditorNode>, b: seq<EditorNode>)
    ensures ToPayloads(a + b) == ToPayloads(a) + ToPayloads(b)
  {
    if a == [] {
      assert a + b == b;
    } else {
      ConcatHead(a, b);
      PayloadsConcat(a[1..], b);
    }
  }

  lemma {:induction false} AlonePayloadIs(lines: seq<EditorNode>)
    requires LinesOnly(lines)
    ensures ToPayloads(EachAlone(lines)) == OldGroups(Singletons(ConditionsOf(lines)))
  {
    if lines != [] {
      var c, rest := lines[0].condition, ConditionsOf(lines[1..]);
      assert lines[0] in lines;
      AlonePayloadIs(lines[1..]);
      GroupPayloadIs([lines[0]]);
      assert ConditionsOf([lines[0]]) == [c];
      assert Singletons(ConditionsOf(lines)) == [[c]] + Singletons(rest);
      OldGroupsCons([c], Singletons(rest));
    }
  }

  lemma MainPayloadIs(filters: seq<EditorNode>, logic: Logic)
    requires LinesOnly(filters)
    ensures ToPayloads(ShownMain(filters, logic)) == OldGroups(MainGroups(ConditionsOf(filters), logic))
  {
    if logic.OR? {
      AlonePayloadIs(filters);
    } else if filters != [] {
      GroupPayloadIs(filters);
      OldGroupsCons(ConditionsOf(filters), []);
      assert [Group("", AND, filters)] + [] == [Group("", AND, filters)];
      assert [ConditionsOf(filters)] + [] == [ConditionsOf(filters)];
    }
  }

  lemma PresetPayloadIs(j: Json)
    requires !(Member(j, "filterTree").Some? && Member(j, "filterTree").value.JObject?)
    requires IsArray(Member(j, "filters")) || IsArray(Member(j, "filterGroups"))
    ensures ToPayload(NormalizePresetContent(j)) == PresetTree(PresetOf(j))
  {
    var filters, items := ShownLines(ItemsOf(Member(j, "filters"))), ItemsOf(Member(j, "filterGroups"));
    var groups, logic := ShownGroups(items), LogicOf(Member(j, "filterLogic"));
    LinesPayloadIs(filters);
    GroupsPayloadIs(items);
    if groups != [] {
      MainPayloadIs(filters, logic);
      PayloadsConcat(ShownMain(filters, logic), groups);
    }
  }

  /** Reading an old preset keeps what it says, whatever unreadable entries it holds. */
  lemma OldPresetKeepsItsMeaning(j: Json, truth: Condition -> bool)
    requires !(Member(j, "filterTree").Some? && Member(j, "filterTree").value.JObject?)
    requires IsArray(Member(j, "filters")) || IsArray(Member(j, "filterGroups"))
    ensures Holds(ToPayload(NormalizePresetContent(j)), truth) <==> OldPresetRule(PresetOf(j), truth)
  {
    PresetPayloadIs(j);
    PresetTreeMeaning(PresetOf(j), truth);
  }

  /** A preset saved in the new form is read back as the tree that was saved. */
  lemma NewPresetIsReadBack(root: EditorNode)
    requires root.Group? && BuildFilterTreePayload(root).Some?
    ensures Bare(NormalizePresetContent(JObject(map["filterTree" := ToJson(BuildFilterTreePayload(root).value)]))) == Bare(Prune(root))
  {
    ReEditingShowsThePrunedTree(root);
  }
}
