/** Merging the code-defined navigation with arbitrary stored rows (merge.ts:38-223). */
module MenuResolve {
  import opened Options
  import opened MenuTypes

  // ---------------------------------------------------------------- code defaults

  function PathOf(item: NavItem): seq<string> {
    (if item.group.Some? && item.group.value != "" then [item.group.value] else []) +
    (if item.subGroup.Some? && item.subGroup.value != "" then [item.subGroup.value] else [])
  }

  function GroupKeys(rows: seq<GroupRow>): set<Key> {
    set row | row in rows :: row.nodeKey
  }

  /** What `configFromDefaults` has built so far: its rows and the next order number of each scope. */
  datatype Identity = Identity(groups: seq<GroupRow>, items: seq<ItemRow>, next: map<string, nat>)

  function ScopeOf(parent: Option<Key>): string {
    parent.GetOr("@top")
  }

  function NextOf(next: map<string, nat>, scope: string): nat {
    if scope in next then next[scope] else 0
  }

  function ChildKey(parent: Option<Key>, name: string): Key {
    if parent.None? then name else parent.value + "/" + name
  }

  function AddGroup(acc: Identity, parent: Option<Key>, name: string): Identity {
    var nodeKey := ChildKey(parent, name);
    if nodeKey in GroupKeys(acc.groups) then acc
    else
      var order := NextOf(acc.next, ScopeOf(parent));
      Identity(acc.groups + [GroupRow(nodeKey, parent, None, order)], acc.items, acc.next[ScopeOf(parent) := order + 1])
  }

  function AddPath(acc: Identity, parent: Option<Key>, path: seq<string>): (Identity, Option<Key>)
    decreases path
  {
    if path == [] then (acc, parent)
    else AddPath(AddGroup(acc, parent, path[0]), Some(ChildKey(parent, path[0])), path[1..])
  }

  function AddItem(acc: Identity, item: NavItem): Identity {
    var (acc1, parent) := AddPath(acc, None, PathOf(item));
    var order := NextOf(acc1.next, ScopeOf(parent));
    Identity(acc1.groups, acc1.items + [ItemRow(item.key, parent, None, order)], acc1.next[ScopeOf(parent) := order + 1])
  }

  function IdentityOf(defaults: seq<NavItem>): Identity {
    if defaults == [] then Identity([], [], map[])
    else AddItem(IdentityOf(defaults[..|defaults| - 1]), defaults[|defaults| - 1])
  }

  /** Default groups are listed once, parents first; a child key is longer than its parent's. */
  ghost predicate GoodGroups(groups: seq<GroupRow>) {
    && (forall i, j :: 0 <= i < j < |groups| ==> groups[i].nodeKey != groups[j].nodeKey)
    && (forall row :: row in groups && row.parentKey.Some? ==>
          row.parentKey.value in GroupKeys(groups) && |row.parentKey.value| < |row.nodeKey|)
  }

  ghost predicate GoodIdentity(acc: Identity, defaults: seq<NavItem>) {
    && GoodGroups(acc.groups)
    && |acc.items| == |defaults|
    && (forall i :: 0 <= i < |defaults| ==> acc.items[i].itemKey == defaults[i].key)
    && (forall row :: row in acc.items && row.parentKey.Some? ==> row.parentKey.value in GroupKeys(acc.groups))
  }

  lemma AddPathGood(acc: Identity, parent: Option<Key>, path: seq<string>, defaults: seq<NavItem>)
    requires GoodIdentity(acc, defaults)
    requires parent.Some? ==> parent.value in GroupKeys(acc.groups)
    ensures var (r, p) := AddPath(acc, parent, path);
      && GoodIdentity(r, defaults)
      && r.items == acc.items
      && (p.Some? ==> p.value in GroupKeys(r.groups))
    decreases path
  {
    if path != [] {
      var next := AddGroup(acc, parent, path[0]);
      var nodeKey := ChildKey(parent, path[0]);
      if nodeKey !in GroupKeys(acc.groups) {
        assert GroupKeys(next.groups) == GroupKeys(acc.groups) + {nodeKey} by {
          assert next.groups[|acc.groups|].nodeKey == nodeKey;
          assert forall row :: row in acc.groups ==> row in next.groups;
        }
        forall i, j | 0 <= i < j < |next.groups| ensures next.groups[i].nodeKey != next.groups[j].nodeKey {
          if j == |acc.groups| { assert acc.groups[i] in acc.groups; }
        }
      }
      AddPathGood(next, Some(nodeKey), path[1..], defaults);
    }
  }

  lemma IdentityGood(defaults: seq<NavItem>)
    ensures GoodIdentity(IdentityOf(defaults), defaults)
  {
    if defaults != [] {
      var before, item := defaults[..|defaults| - 1], defaults[|defaults| - 1];
      IdentityGood(before);
      AddPathGood(IdentityOf(before), None, PathOf(item), before);
    }
  }

  /** merge.ts:42-67 as written: one pass over the defaults, pushing onto two arrays. */
  method ConfigFromDefaults(defaults: seq<NavItem>) returns (config: Config)
    ensures config == Config(IdentityOf(defaults).groups, IdentityOf(defaults).items)
  {
    var groups: seq<GroupRow> := [];
    var items: seq<ItemRow> := [];
    var knownGroups: set<Key> := {};
    var nextOrderByScope: map<string, nat> := map[];
    for i := 0 to |defaults|
      invariant IdentityOf(defaults[..i]) == Identity(groups, items, nextOrderByScope)
      invariant knownGroups == GroupKeys(groups)
    {
      var path := PathOf(defaults[i]);
      var parentKey: Option<Key> := None;
      ghost var before := Identity(groups, items, nextOrderByScope);
      assert defaults[..i + 1][..i] == defaults[..i];
      for k := 0 to |path|
        invariant AddPath(before, None, path) == AddPath(Identity(groups, items, nextOrderByScope), parentKey, path[k..])
        invariant knownGroups == GroupKeys(groups)
      {
        var nodeKey := ChildKey(parentKey, path[k]);
        if nodeKey !in knownGroups {
          var order := NextOf(nextOrderByScope, ScopeOf(parentKey));
          ghost var old_groups := groups;
          groups := groups + [GroupRow(nodeKey, parentKey, None, order)];
          assert GroupKeys(groups) == GroupKeys(old_groups) + {nodeKey} by {
            assert groups[|old_groups|].nodeKey == nodeKey;
            assert forall row :: row in old_groups ==> row in groups;
          }
          knownGroups := knownGroups + {nodeKey};
          nextOrderByScope := nextOrderByScope[ScopeOf(parentKey) := order + 1];
        }
        parentKey := Some(nodeKey);
        assert path[k..][1..] == path[k + 1..];
      }
      var order := NextOf(nextOrderByScope, ScopeOf(parentKey));
      items := items + [ItemRow(defaults[i].key, parentKey, None, order)];
      nextOrderByScope := nextOrderByScope[ScopeOf(parentKey) := order + 1];
    }
    assert defaults[..|defaults|] == defaults;
    config := Config(groups, items);
  }

  // ---------------------------------------------------------------- parent resolution

  type Parents = map<Key, Option<Key>>

  /** The parent of a key; none at the top and for unknown keys. */
  function ParentOf(parents: Parents, k: Key): Option<Key> {
    if k in parents then parents[k] else None
  }

  /** The two parents each kept group may get: the configured one, then the code default. */
  datatype Graph = Graph(keys: set<Key>, candidate: map<Key, Option<Key>>, fallback: map<Key, Option<Key>>) {
    ghost predicate Closed() {
      && candidate.Keys == keys && fallback.Keys == keys
      && (forall k :: ParentOf(candidate, k).Some? ==> ParentOf(candidate, k).value in keys)
      && (forall k :: ParentOf(fallback, k).Some? ==> ParentOf(fallback, k).value in keys)
    }
  }

  /** `height` strictly drops from every parent to its child, so no parent chain returns to its start. */
  ghost predicate Falls(parents: Parents, height: map<Key, nat>) {
    && height.Keys == parents.Keys
    && (forall k :: ParentOf(parents, k).Some? ==>
          ParentOf(parents, k).value in parents && height[k] < height[ParentOf(parents, k).value])
  }

  ghost predicate Acyclic(parents: Parents) {
    exists height: map<Key, nat> :: Falls(parents, height)
  }

  lemma AddLeaf(parents: Parents, leaf: Key, parent: Option<Key>)
    requires Acyclic(parents) && leaf !in parents
    requires parent.Some? ==> parent.value in parents
    ensures Acyclic(parents[leaf := parent])
  {
    var height: map<Key, nat> :| Falls(parents, height);
    var raised := (map k | k in height :: height[k] + 1)[leaf := 0];
    var more := parents[leaf := parent];
    forall k | ParentOf(more, k).Some?
      ensures ParentOf(more, k).value in more && raised[k] < raised[ParentOf(more, k).value]
    {
      if k != leaf {
        assert ParentOf(more, k) == ParentOf(parents, k);
      }
    }
    assert Falls(more, raised);
  }

  /** What holds of the finished part of the search at every moment. */
  ghost predicate Sound(g: Graph, done: Parents)
    requires g.Closed()
  {
    && done.Keys <= g.keys
    && (forall k :: ParentOf(done, k).Some? ==>
          ParentOf(done, k) == ParentOf(g.candidate, k) || ParentOf(done, k) == ParentOf(g.fallback, k))
    && (forall k :: ParentOf(done, k).Some? ==> ParentOf(done, k).value in done)
    && Acyclic(done)
  }

  ghost predicate Extends(before: Parents, after: Parents) {
    forall k :: k in before ==> k in after && after[k] == before[k]
  }

  lemma FinishSound(g: Graph, done: Parents, n: Key, parent: Option<Key>)
    requires g.Closed() && Sound(g, done) && n in g.keys && n !in done
    requires parent.None? || parent == ParentOf(g.candidate, n) || parent == ParentOf(g.fallback, n)
    requires parent.Some? ==> parent.value in done
    ensures Sound(g, done[n := parent])
  {
    AddLeaf(done, n, parent);
    forall k ensures ParentOf(done[n := parent], k) == if k == n then parent else ParentOf(done, k) {
    }
  }

  /**
   * The depth-first search that picks the parent of `n`. `visiting` is the chain of calls in progress;
   * a parent on that chain is refused.
   */
  function Visit(g: Graph, n: Key, visiting: set<Key>, done: Parents): (r: Parents)
    requires g.Closed() && n in g.keys && n !in visiting && visiting <= g.keys
    requires Sound(g, done) && done.Keys !! visiting
    ensures Sound(g, r) && Extends(done, r) && n in r && r.Keys !! visiting
    decreases g.keys - visiting
  {
    if n in done then done
    else
      var chain := visiting + {n};
      var candidate, fallback := ParentOf(g.candidate, n), ParentOf(g.fallback, n);
      if candidate.Some? && candidate.value !in chain then
        var r := Visit(g, candidate.value, chain, done);
        FinishSound(g, r, n, candidate);
        r[n := candidate]
      else if candidate.Some? && fallback.Some? && fallback != candidate && fallback.value !in chain then
        var r := Visit(g, fallback.value, chain, done);
        FinishSound(g, r, n, fallback);
        r[n := fallback]
      else
        FinishSound(g, done, n, None);
        done[n := None]
  }

  function VisitAll(g: Graph, order: seq<Key>, done: Parents): (r: Parents)
    requires g.Closed() && Sound(g, done) && forall k :: k in order ==> k in g.keys
    ensures Sound(g, r) && Extends(done, r) && forall k :: k in order ==> k in r
  {
    if order == [] then done
    else VisitAll(g, order[1..], Visit(g, order[0], {}, done))
  }

  function ResolveParents(g: Graph, order: seq<Key>): (r: Parents)
    requires g.Closed() && forall k :: k in order ==> k in g.keys
    ensures Sound(g, r) && forall k :: k in order ==> k in r
  {
    assert Sound(g, map[]) by {
      assert Falls(map[], map[]);
    }
    VisitAll(g, order, map[])
  }

  /** `rank` certifies that the configured chain above each of its keys ends at the top. */
  ghost predicate Grounded(g: Graph, rank: map<Key, nat>) {
    && rank.Keys <= g.keys
    && (forall k :: k in rank && ParentOf(g.candidate, k).Some? ==>
          ParentOf(g.candidate, k).value in rank && rank[ParentOf(g.candidate, k).value] < rank[k])
  }

  ghost predicate KeepsCandidates(g: Graph, done: Parents, rank: map<Key, nat>) {
    forall k {:trigger ParentOf(done, k)} :: k in done && k in rank ==> ParentOf(done, k) == ParentOf(g.candidate, k)
  }

  lemma {:induction false} VisitKeepsGrounded(g: Graph, n: Key, visiting: set<Key>, done: Parents, rank: map<Key, nat>)
    requires g.Closed() && n in g.keys && n !in visiting && visiting <= g.keys
    requires Sound(g, done) && done.Keys !! visiting
    requires Grounded(g, rank) && KeepsCandidates(g, done, rank)
    requires forall v :: v in visiting && v in rank ==> n in rank && rank[n] < rank[v]
    ensures KeepsCandidates(g, Visit(g, n, visiting, done), rank)
    decreases g.keys - visiting
  {
    if n !in done {
      var chain := visiting + {n};
      var candidate, fallback := ParentOf(g.candidate, n), ParentOf(g.fallback, n);
      if candidate.Some? && candidate.value !in chain {
        VisitKeepsGrounded(g, candidate.value, chain, done, rank);
      } else if candidate.Some? && fallback.Some? && fallback != candidate && fallback.value !in chain {
        VisitKeepsGrounded(g, fallback.value, chain, done, rank);
      }
    }
  }

  lemma {:induction false} VisitAllKeepsGrounded(g: Graph, order: seq<Key>, done: Parents, rank: map<Key, nat>)
    requires g.Closed() && Sound(g, done) && forall k :: k in order ==> k in g.keys
    requires Grounded(g, rank) && KeepsCandidates(g, done, rank)
    ensures KeepsCandidates(g, VisitAll(g, order, done), rank)
  {
    if order != [] {
      VisitKeepsGrounded(g, order[0], {}, done, rank);
      VisitAllKeepsGrounded(g, order[1..], Visit(g, order[0], {}, done), rank);
    }
  }

  /** A group whose configured chain reaches the top keeps its configured parent, whatever cycles the rest of the table has. */
  lemma GroundedGroupsKeepTheirParent(g: Graph, order: seq<Key>, rank: map<Key, nat>)
    requires g.Closed() && (forall k :: k in order ==> k in g.keys) && Grounded(g, rank)
    ensures forall k :: k in order && k in rank ==> ParentOf(ResolveParents(g, order), k) == ParentOf(g.candidate, k)
  {
    assert Sound(g, map[]) by {
      assert Falls(map[], map[]);
    }
    VisitAllKeepsGrounded(g, order, map[], rank);
  }

  /** A chain of configured parents that comes back to its start. */
  ghost predicate Cycle(g: Graph, cycle: seq<Key>) {
    && |cycle| >= 2 && (forall s, t :: 0 <= s < t < |cycle| ==> cycle[s] != cycle[t])
    && (forall t :: 0 <= t < |cycle| ==> cycle[t] in g.keys)
    && (forall t :: 0 <= t < |cycle| - 1 ==> ParentOf(g.candidate, cycle[t]) == Some(cycle[t + 1]))
    && ParentOf(g.candidate, cycle[|cycle| - 1]) == Some(cycle[0])
  }

  /** What the last group of a cycle gets: its declared parent if that is outside the cycle and the groups it was entered from. */
  ghost function OutOfCycle(g: Graph, cycle: seq<Key>, above: set<Key>): Option<Key>
    requires cycle != []
  {
    var declared := ParentOf(g.fallback, cycle[|cycle| - 1]);
    if declared.Some? && declared.value !in cycle && declared.value !in above then declared else None
  }

  ghost predicate BrokenFrom(g: Graph, cycle: seq<Key>, above: set<Key>, done: Parents, t: nat)
    requires cycle != []
  {
    && (forall s :: t <= s < |cycle| ==> cycle[s] in done)
    && (forall s :: t <= s < |cycle| - 1 ==> done[cycle[s]] == Some(cycle[s + 1]))
    && (t < |cycle| ==> done[cycle[|cycle| - 1]] == OutOfCycle(g, cycle, above))
  }

  lemma {:induction false} VisitBreaksCycle(g: Graph, cycle: seq<Key>, above: set<Key>, t: nat, visiting: set<Key>, done: Parents)
    requires g.Closed() && Cycle(g, cycle) && t < |cycle| && visiting == above + set s | 0 <= s < t :: cycle[s]
    requires visiting <= g.keys && Sound(g, done) && done.Keys !! visiting
    requires forall s :: 0 <= s < |cycle| ==> cycle[s] !in done && cycle[s] !in above
    requires cycle[t] !in visiting
    ensures BrokenFrom(g, cycle, above, Visit(g, cycle[t], visiting, done), t)
    decreases |cycle| - t
  {
    var chain := visiting + {cycle[t]};
    assert chain == above + set s | 0 <= s < t + 1 :: cycle[s];
    if t < |cycle| - 1 {
      VisitBreaksCycle(g, cycle, above, t + 1, chain, done);
    } else {
      assert forall k :: k in chain <==> k in above || k in cycle;
    }
  }

  /**
   * The search that enters a cycle of stored parents keeps all of them but the last, whose group goes back to its declared
   * parent, or to the top if that is none or in the cycle.
   */
  lemma {:induction false} CycleIsBrokenAtItsEnd(g: Graph, order: seq<Key>, cycle: seq<Key>)
    requires g.Closed() && (forall k :: k in order ==> k in g.keys) && Cycle(g, cycle) && order != [] && order[0] == cycle[0]
    ensures var parents := ResolveParents(g, order);
      && (forall s :: 0 <= s < |cycle| ==> cycle[s] in parents)
      && (forall s :: 0 <= s < |cycle| - 1 ==> parents[cycle[s]] == Some(cycle[s + 1]))
      && parents[cycle[|cycle| - 1]] == OutOfCycle(g, cycle, {})
  {
    assert Sound(g, map[]) by {
      assert Falls(map[], map[]);
    }
    VisitBreaksCycle(g, cycle, {}, 0, {}, map[]);
    var first := Visit(g, order[0], {}, map[]);
    assert Extends(first, VisitAll(g, order[1..], first));
  }

  /** All groups of the cycle but one keep their stored parent; that one has its declared parent, outside the cycle, or the top. */
  ghost predicate LosesOneEdge(g: Graph, cycle: seq<Key>, done: Parents) {
    exists t :: IsLost(g, cycle, done, t)
  }

  ghost predicate IsLost(g: Graph, cycle: seq<Key>, done: Parents, t: int) {
    && 0 <= t < |cycle| && (forall s :: 0 <= s < |cycle| ==> cycle[s] in done)
    && (forall s :: 0 <= s < |cycle| && s != t ==> done[cycle[s]] == ParentOf(g.candidate, cycle[s]))
    && (done[cycle[t]].Some? ==> done[cycle[t]] == ParentOf(g.fallback, cycle[t]) && done[cycle[t]].value !in cycle)
  }

  ghost function Rotated(cycle: seq<Key>, k: nat): (r: seq<Key>)
    requires k < |cycle|
    ensures |r| == |cycle| && forall s :: 0 <= s < |r| ==> r[s] == cycle[if s + k < |cycle| then s + k else s + k - |cycle|]
  {
    cycle[k..] + cycle[..k]
  }

  lemma RotatedIsCycle(g: Graph, cycle: seq<Key>, k: nat)
    requires Cycle(g, cycle) && k < |cycle|
    ensures Cycle(g, Rotated(cycle, k)) && forall x :: x in Rotated(cycle, k) <==> x in cycle
  {
    var r, n := Rotated(cycle, k), |cycle|;
    forall t | 0 <= t < n - 1 ensures ParentOf(g.candidate, r[t]) == Some(r[t + 1]) {
      if t + k == n - 1 {
        assert r[t] == cycle[n - 1] && r[t + 1] == cycle[0];
      }
    }
    assert r[n - 1] == cycle[if k == 0 then n - 1 else k - 1] && r[0] == cycle[k];
    RotatedMembers(cycle, k);
  }

  lemma RotatedMembers(cycle: seq<Key>, k: nat)
    requires k < |cycle|
    ensures forall x :: x in Rotated(cycle, k) <==> x in cycle
  {
    assert cycle == cycle[..k] + cycle[k..];
  }

  /** A search entering the cycle at its k-th group. */
  lemma {:induction false} EnteringLosesOneEdge(g: Graph, cycle: seq<Key>, k: nat, visiting: set<Key>, done: Parents)
    requires g.Closed() && Cycle(g, cycle) && k < |cycle| && visiting <= g.keys && Sound(g, done) && done.Keys !! visiting
    requires forall s :: 0 <= s < |cycle| ==> cycle[s] !in done && cycle[s] !in visiting
    ensures LosesOneEdge(g, cycle, Visit(g, cycle[k], visiting, done))
  {
    var r, n := Rotated(cycle, k), |cycle|;
    RotatedIsCycle(g, cycle, k);
    forall s | 0 <= s < n ensures r[s] !in done && r[s] !in visiting {
      assert r[s] in cycle;
    }
    VisitBreaksCycle(g, r, visiting, 0, visiting, done);
    var last, after := if k == 0 then n - 1 else k - 1, Visit(g, cycle[k], visiting, done);
    forall s | 0 <= s < n ensures cycle[s] in after && (s != last ==> after[cycle[s]] == ParentOf(g.candidate, cycle[s])) {
      var t := if s >= k then s - k else s - k + n;
      assert r[t] == cycle[s];
      if s != last {
        assert t < n - 1 && after[r[t]] == Some(r[t + 1]) && ParentOf(g.candidate, r[t]) == Some(r[t + 1]);
      }
    }
    assert r[n - 1] == cycle[last];
    assert IsLost(g, cycle, after, last);
  }

  /** Nothing of the cycle is resolved, or all of it is, with one edge lost. */
  ghost predicate AllOrNothing(g: Graph, cycle: seq<Key>, done: Parents) {
    (forall k :: k in cycle ==> k !in done) || LosesOneEdge(g, cycle, done)
  }

  lemma LostStays(g: Graph, cycle: seq<Key>, before: Parents, after: Parents)
    requires LosesOneEdge(g, cycle, before) && Extends(before, after)
    ensures LosesOneEdge(g, cycle, after)
  {
    var t :| IsLost(g, cycle, before, t);
    assert IsLost(g, cycle, after, t);
  }

  lemma {:induction false} VisitKeepsAllOrNothing(g: Graph, cycle: seq<Key>, n: Key, visiting: set<Key>, done: Parents)
    requires g.Closed() && Cycle(g, cycle) && n in g.keys && n !in visiting && visiting <= g.keys && Sound(g, done) && done.Keys !! visiting
    requires (forall k :: k in cycle ==> k !in visiting) && AllOrNothing(g, cycle, done)
    ensures AllOrNothing(g, cycle, Visit(g, n, visiting, done))
    decreases g.keys - visiting, 0
  {
    var after := Visit(g, n, visiting, done);
    if LosesOneEdge(g, cycle, done) {
      LostStays(g, cycle, done, after);
    } else if n in cycle {
      var k :| 0 <= k < |cycle| && cycle[k] == n;
      EnteringLosesOneEdge(g, cycle, k, visiting, done);
    } else if n !in done {
      var chain := visiting + {n};
      var candidate, fallback := ParentOf(g.candidate, n), ParentOf(g.fallback, n);
      if candidate.Some? && candidate.value !in chain {
        StepKeepsAllOrNothing(g, cycle, n, chain, candidate, done);
      } else if candidate.Some? && fallback.Some? && fallback != candidate && fallback.value !in chain {
        StepKeepsAllOrNothing(g, cycle, n, chain, fallback, done);
      }
    }
  }

  lemma {:induction false} StepKeepsAllOrNothing(g: Graph, cycle: seq<Key>, n: Key, chain: set<Key>, parent: Option<Key>, done: Parents)
    requires g.Closed() && Cycle(g, cycle) && n in chain && chain <= g.keys && Sound(g, done) && done.Keys !! chain
    requires parent.Some? && parent.value in g.keys && parent.value !in chain
    requires (forall k :: k in cycle ==> k !in chain) && AllOrNothing(g, cycle, done)
    ensures var r := Visit(g, parent.value, chain, done); AllOrNothing(g, cycle, r[n := parent])
    decreases g.keys - chain, 1
  {
    var r := Visit(g, parent.value, chain, done);
    VisitKeepsAllOrNothing(g, cycle, parent.value, chain, done);
    if LosesOneEdge(g, cycle, r) {
      LostStays(g, cycle, r, r[n := parent]);
    }
  }

  lemma {:induction false} VisitAllKeepsAllOrNothing(g: Graph, cycle: seq<Key>, order: seq<Key>, done: Parents)
    requires g.Closed() && Cycle(g, cycle) && Sound(g, done) && (forall k :: k in order ==> k in g.keys) && AllOrNothing(g, cycle, done)
    ensures AllOrNothing(g, cycle, VisitAll(g, order, done))
  {
    if order != [] {
      VisitKeepsAllOrNothing(g, cycle, order[0], {}, done);
      VisitAllKeepsAllOrNothing(g, cycle, order[1..], Visit(g, order[0], {}, done));
    }
  }

  /** Of every cycle of stored parents, wherever the search enters it, exactly one group is moved out. */
  lemma {:induction false} EveryCycleLosesOneEdge(g: Graph, order: seq<Key>, cycle: seq<Key>)
    requires g.Closed() && Cycle(g, cycle) && (forall k :: k in order ==> k in g.keys) && exists k :: k in cycle && k in order
    ensures LosesOneEdge(g, cycle, ResolveParents(g, order))
  {
    assert Sound(g, map[]) by {
      assert Falls(map[], map[]);
    }
    VisitAllKeepsAllOrNothing(g, cycle, order, map[]);
  }

  datatype VisitState = InProgress | Done

  /** The search of merge.ts:139-172 as written, over its two maps. */
  class ParentResolver {
    const g: Graph
    var resolveState: map<Key, VisitState>
    var resolvedParent: Parents

    ghost function Visiting(): set<Key>
      reads this
    {
      set k | k in resolveState && resolveState[k] == InProgress
    }

    ghost predicate Valid()
      reads this
    {
      && g.Closed() && Sound(g, resolvedParent)
      && resolveState.Keys <= g.keys
      && (forall k :: k in resolvedParent <==> k in resolveState && resolveState[k] == Done)
    }

    constructor (g: Graph)
      requires g.Closed()
      ensures Valid() && this.g == g && resolvedParent == map[] && Visiting() == {}
    {
      this.g := g;
      resolveState := map[];
      resolvedParent := map[];
      new;
      assert Falls(map[], map[]);
    }

    method ResolveNode(nodeKey: Key)
      requires Valid() && nodeKey in g.keys && nodeKey !in Visiting()
      modifies this
      ensures Valid() && Visiting() == old(Visiting())
      ensures resolvedParent == Visit(g, nodeKey, old(Visiting()), old(resolvedParent))
      decreases g.keys - Visiting()
    {
      if nodeKey in resolveState && resolveState[nodeKey] == Done {
        return;
      }
      Begin(nodeKey);
      var candidate, defaultParent := ParentOf(g.candidate, nodeKey), ParentOf(g.fallback, nodeKey);
      var resolved: Option<Key> := None;
      if candidate.Some? && !IsVisiting(candidate.value) {
        ResolveNode(candidate.value);
        resolved := candidate;
      } else if candidate.Some? && defaultParent.Some? && defaultParent != candidate && !IsVisiting(defaultParent.value) {
        ResolveNode(defaultParent.value);
        resolved := defaultParent;
      }
      Finish(nodeKey, resolved);
    }

    method Begin(nodeKey: Key)
      requires Valid() && nodeKey in g.keys && nodeKey !in resolvedParent && nodeKey !in Visiting()
      modifies this`resolveState
      ensures Valid() && Visiting() == old(Visiting()) + {nodeKey}
    {
      resolveState := resolveState[nodeKey := InProgress];
    }

    method Finish(nodeKey: Key, parent: Option<Key>)
      requires Valid() && nodeKey in Visiting()
      requires parent.None? || parent == ParentOf(g.candidate, nodeKey) || parent == ParentOf(g.fallback, nodeKey)
      requires parent.Some? ==> parent.value in resolvedParent
      modifies this
      ensures Valid() && Visiting() == old(Visiting()) - {nodeKey}
      ensures resolvedParent == old(resolvedParent)[nodeKey := parent]
    {
      FinishSound(g, resolvedParent, nodeKey, parent);
      resolveState := resolveState[nodeKey := Done];
      resolvedParent := resolvedParent[nodeKey := parent];
    }

    predicate IsVisiting(k: Key)
      reads this
      ensures IsVisiting(k) <==> k in Visiting()
    {
      k in resolveState && resolveState[k] == InProgress
    }

    method ResolveAll(order: seq<Key>)
      requires Valid() && Visiting() == {} && resolvedParent == map[]
      requires forall k :: k in order ==> k in g.keys
      modifies this
      ensures Valid()
      ensures resolvedParent == ResolveParents(g, order)
    {
      for i := 0 to |order|
        invariant Valid() && Visiting() == {}
        invariant VisitAll(g, order, old(resolvedParent)) == VisitAll(g, order[i..], resolvedParent)
      {
        ResolveNode(order[i]);
        assert order[i..][1..] == order[i + 1..];
      }
    }
  }
}
