/**
 * Elementary and grouped dependencies, and the cache that keeps one grouped
 * dependency per (origin, target) pair of full names.
 *
 * An elementary dependency is one concrete relation between two classes; a
 * grouped dependency is the single visible edge drawn for all elementary
 * dependencies between two currently visible nodes. Both are objects whose
 * fields are updated in place, so they are classes here. The view objects a
 * grouped dependency talks to are represented only by the log of calls made
 * on them (`viewCalls`); the geometry of start and end points is not
 * modelled, only which end node the relative points were last computed
 * against (`relativePointsAnchor`).
 */
module Dependency {
  import opened Nodes
  import opened Grouping

  /** The dependency types every visualisation knows about, whatever the input. */
  const DefaultDependencyTypes: seq<string> := ["INNERCLASS_DEPENDENCY"]

  /** `${originName}-${targetName}`: the key under which the cache keeps a grouped dependency. */
  function CacheKey(originName: string, targetName: string): string
  {
    originName + "-" + targetName
  }

  /**
   * Distinct pairs get distinct keys as long as origin names contain no `-`
   * (true of Java class and package names); the target name may contain any
   * character.
   */
  lemma CacheKeyInjective(origin1: string, target1: string, origin2: string, target2: string)
    requires '-' !in origin1 && '-' !in origin2
    ensures CacheKey(origin1, target1) == CacheKey(origin2, target2) <==>
            origin1 == origin2 && target1 == target2
  {
    var k1, k2 := CacheKey(origin1, target1), CacheKey(origin2, target2);
    if k1 == k2 {
      assert k1[|origin1|] == '-' && k2[|origin2|] == '-';
      assert forall j | 0 <= j < |origin1| :: k1[j] == origin1[j];
      assert forall j | 0 <= j < |origin2| :: k2[j] == origin2[j];
      assert IndexOf('-', k1) == |origin1| && IndexOf('-', k2) == |origin2|;
      assert origin1 == k1[..|origin1|] == k2[..|origin2|] == origin2;
      assert target1 == k1[|origin1| + 1..] == k2[|origin2| + 1..] == target2;
    }
  }

  /** Without that restriction two different pairs share a key. */
  lemma CacheKeyCollision()
    ensures CacheKey("a-b", "c") == CacheKey("a", "b-c")
  {
  }

  /** A call a grouped dependency makes on its view. */
  datatype ViewCall = ViewRefresh | ViewContainerEndNodeChanged | ViewJumpToPositionAndRefresh

  /** Every stored filter result is `true` (vacuously so when none is stored). */
  predicate AllTrue(results: map<string, bool>)
  {
    forall key | key in results :: results[key]
  }

  /** Storing one filter result: all results hold exactly when the new one and all others do. */
  lemma AllTrueAfterUpdate(results: map<string, bool>, key: string, value: bool)
    ensures AllTrue(results[key := value]) <==> value && AllTrue(results - {key})
  {
    var updated := results[key := value];
    assert key in updated && updated[key] == value;
    if value && AllTrue(results - {key}) {
      forall k | k in updated ensures updated[k] {
        if k != key {
          assert k in results - {key};
        }
      }
    }
    if AllTrue(updated) {
      forall k | k in results - {key} ensures (results - {key})[k] {
        assert k in updated;
      }
    }
  }

  /** One concrete dependency between two classes. */
  class ElementaryDependency {
    const originNode: Node
    const targetNode: Node
    const from: string
    const to: string
    const dependencyType: string
    const description: string
    var isViolation: bool
    /** The result of each filter applied to this dependency, by filter key. */
    var matchesFilter: map<string, bool>

    constructor (originNode: Node, targetNode: Node, dependencyType: string, description: string, isViolation: bool)
      ensures this.originNode == originNode && this.targetNode == targetNode
      ensures from == originNode.fullName && to == targetNode.fullName
      ensures this.dependencyType == dependencyType && this.description == description
      ensures this.isViolation == isViolation && matchesFilter == map[]
    {
      this.originNode := originNode;
      this.targetNode := targetNode;
      this.from := originNode.fullName;
      this.to := targetNode.fullName;
      this.dependencyType := dependencyType;
      this.description := description;
      this.isViolation := isViolation;
      this.matchesFilter := map[];
    }

    /** Records whether the filter `key` lets this dependency through; other filters keep their results. */
    method SetMatchesFilter(key: string, value: bool)
      modifies this`matchesFilter
      ensures matchesFilter == old(matchesFilter)[key := value]
      ensures MatchesFilter(key) == Some(value)
      ensures MatchesAllFilters() <==> value && AllTrue(old(matchesFilter) - {key})
    {
      matchesFilter := matchesFilter[key := value];
      AllTrueAfterUpdate(old(matchesFilter), key, value);
    }

    /** The stored result of filter `key`; `undefined` (here `None`) for a filter never set. */
    function MatchesFilter(key: string): Option<bool>
      reads this
    {
      if key in matchesFilter then Some(matchesFilter[key]) else None
    }

    /** Whether every filter applied so far lets this dependency through. */
    function MatchesAllFilters(): (r: bool)
      reads this
      ensures r <==> AllTrue(matchesFilter)
      ensures matchesFilter == map[] ==> r
    {
      false !in matchesFilter.Values
    }

    method MarkAsViolation()
      modifies this`isViolation
      ensures isViolation
    {
      isViolation := true;
    }

    method UnMarkAsViolation()
      modifies this`isViolation
      ensures !isViolation
    {
      isViolation := false;
    }
  }

  /** `createElementaryDependency`: a new record that is not a violation and has no filter results. */
  method CreateElementaryDependency(originNode: Node, targetNode: Node, dependencyType: string, description: string)
    returns (r: ElementaryDependency)
    ensures fresh(r)
    ensures r.originNode == originNode && r.targetNode == targetNode
    ensures r.from == originNode.fullName && r.to == targetNode.fullName
    ensures r.dependencyType == dependencyType && r.description == description
    ensures !r.isViolation && r.matchesFilter == map[]
  {
    r := new ElementaryDependency(originNode, targetNode, dependencyType, description, false);
  }

  /**
   * `shiftElementaryDependency`: a new record between the new end nodes that
   * keeps only the violation flag; the original record is left as it was.
   */
  method ShiftElementaryDependency(dependency: ElementaryDependency, newOriginNode: Node, newTargetNode: Node)
    returns (r: ElementaryDependency)
    ensures fresh(r)
    ensures r.originNode == newOriginNode && r.targetNode == newTargetNode
    ensures r.from == newOriginNode.fullName && r.to == newTargetNode.fullName
    ensures r.dependencyType == "" && r.description == ""
    ensures r.isViolation == dependency.isViolation && r.matchesFilter == map[]
  {
    r := new ElementaryDependency(newOriginNode, newTargetNode, "", "", dependency.isViolation);
  }

  /** The types of the given elementary dependencies, in order. */
  function TypesOf(dependencies: seq<ElementaryDependency>): seq<string>
  {
    seq(|dependencies|, i requires 0 <= i < |dependencies| => dependencies[i].dependencyType)
  }

  /** `dependencies.some(d => d.isViolation)`. */
  predicate SomeViolation(dependencies: seq<ElementaryDependency>)
    reads dependencies
  {
    exists i | 0 <= i < |dependencies| :: dependencies[i].isViolation
  }

  /** The one visible edge drawn for all elementary dependencies between two nodes. */
  class GroupedDependency {
    const originNode: Node
    const targetNode: Node
    const from: string
    const to: string
    const description: string
    var dependencyType: string
    var isViolation: bool
    var isVisible: bool
    /** Whether the end nodes must share their circles; set from outside this model. */
    var mustShareNodes: bool
    /** The end node whose position the relative start and end points are measured from. */
    var containerEndNode: Node
    /** Set when the container end node was replaced and the view has not applied it yet. */
    var containerEndNodeHasChanged: bool
    /** The end node the relative points were last computed from; `None` before the first computation. */
    var relativePointsAnchor: Option<Node>
    /** The calls made on the dependency's view, oldest first. */
    var viewCalls: seq<ViewCall>

    /**
     * The source passes one argument too many to the elementary-dependency
     * constructor, so the violation flag lands in the unused sixth position:
     * a fresh grouped dependency has an empty description and is never a
     * violation, whatever `isViolation` says. Its container end node starts
     * as the end node in the foreground.
     */
    constructor (originNode: Node, targetNode: Node, dependencyType: string, isViolation: bool, liesInFrontOf: NodeRelation)
      ensures this.originNode == originNode && this.targetNode == targetNode
      ensures from == originNode.fullName && to == targetNode.fullName
      ensures this.dependencyType == dependencyType && description == "" && !this.isViolation
      ensures containerEndNode == CalcEndNodeInForeground(liesInFrontOf)
      ensures isVisible && !mustShareNodes && !containerEndNodeHasChanged
      ensures relativePointsAnchor == None && viewCalls == []
    {
      this.originNode := originNode;
      this.targetNode := targetNode;
      this.from := originNode.fullName;
      this.to := targetNode.fullName;
      this.dependencyType := dependencyType;
      this.description := "";
      this.isViolation := false;
      this.containerEndNode := originNode;
      this.isVisible := true;
      this.mustShareNodes := false;
      this.containerEndNodeHasChanged := false;
      this.relativePointsAnchor := None;
      this.viewCalls := [];
      new;
      containerEndNode := CalcEndNodeInForeground(liesInFrontOf);
    }

    /** The cache key of this dependency, also its `toString()`. */
    function Key(): string
    {
      CacheKey(from, to)
    }

    /** Overwrites type and violation flag in place and hands back the same object. */
    method WithTypeAndViolation(dependencyType: string, isViolation: bool) returns (self: GroupedDependency)
      modifies this`dependencyType, this`isViolation
      ensures self == this
      ensures this.dependencyType == dependencyType && this.isViolation == isViolation
    {
      this.dependencyType := dependencyType;
      this.isViolation := isViolation;
      self := this;
    }

    /**
     * The end node in front: `argMax` over `[origin, target]` by
     * `liesInFrontOf`. The target wins only if it lies in front of the origin.
     */
    function CalcEndNodeInForeground(liesInFrontOf: NodeRelation): (n: Node)
      ensures n == if liesInFrontOf(targetNode, originNode) then targetNode else originNode
    {
      ArgMaxOfPair(originNode, targetNode, liesInFrontOf);
      ArgMax([originNode, targetNode], liesInFrontOf).value
    }

    /**
     * The end node in the background: `argMax` by "does not lie in front of".
     * The origin wins only if the target lies in front of it.
     */
    function CalcEndNodeInBackground(liesInFrontOf: NodeRelation): (n: Node)
      ensures n == if liesInFrontOf(targetNode, originNode) then originNode else targetNode
    {
      var liesBehind := (node1: Node, node2: Node) => !liesInFrontOf(node1, node2);
      ArgMaxOfPair(originNode, targetNode, liesBehind);
      ArgMax([originNode, targetNode], liesBehind).value
    }

    /** Between two different nodes, the foreground and background end nodes are the two ends, one each. */
    lemma EndNodesAreOpposite(liesInFrontOf: NodeRelation)
      requires originNode != targetNode
      ensures CalcEndNodeInForeground(liesInFrontOf) != CalcEndNodeInBackground(liesInFrontOf)
      ensures {CalcEndNodeInForeground(liesInFrontOf), CalcEndNodeInBackground(liesInFrontOf)} ==
              {originNode, targetNode}
    {
    }

    /** A detailed description exists only between two non-packages, where grouping may give a style. */
    function HasDetailedDescription(): (r: bool)
      ensures r <==> exists types, colored, dashed ::
                       GroupedDependencyType(originNode, targetNode, types, colored, dashed) != ""
    {
      var r := !(originNode.isPackage || targetNode.isPackage);
      if r then (StyledGroupingExists(originNode, targetNode); r) else r
    }

    /** The state of a grouped dependency just built for a pair, apart from its type and flag. */
    predicate InInitialState(liesInFrontOf: NodeRelation)
      reads this
    {
      description == "" && isVisible && !mustShareNodes && !containerEndNodeHasChanged &&
      containerEndNode == CalcEndNodeInForeground(liesInFrontOf) &&
      relativePointsAnchor == None && viewCalls == []
    }

    /** The flag is cleared once the view has applied the new container end node. */
    method OnContainerEndNodeApplied()
      modifies this`containerEndNodeHasChanged
      ensures !containerEndNodeHasChanged
    {
      containerEndNodeHasChanged := false;
    }

    /**
     * The `containerEndNode` setter: assigning the node already held changes
     * nothing; another node is stored, flagged as changed, and the relative
     * points are recomputed from it.
     */
    method SetContainerEndNode(value: Node)
      modifies this`containerEndNode, this`containerEndNodeHasChanged, this`relativePointsAnchor
      ensures old(containerEndNode) == value ==> unchanged(this)
      ensures old(containerEndNode) != value ==>
                containerEndNode == value && containerEndNodeHasChanged &&
                relativePointsAnchor == Some(value)
    {
      if containerEndNode != value {
        containerEndNodeHasChanged := true;
        containerEndNode := value;
        relativePointsAnchor := Some(containerEndNode);
      }
    }

    /** Recomputes the points from the current container end node and asks the view to jump there. */
    method JumpToPosition()
      modifies this`relativePointsAnchor, this`viewCalls
      ensures relativePointsAnchor == Some(containerEndNode)
      ensures viewCalls == old(viewCalls) + [ViewJumpToPositionAndRefresh]
    {
      relativePointsAnchor := Some(containerEndNode);
      viewCalls := viewCalls + [ViewJumpToPositionAndRefresh];
    }

    /**
     * After nodes were focused, a pending container change is announced to
     * the view and the dependency jumps to its new position. The flag stays
     * set until `OnContainerEndNodeApplied`.
     */
    method OnNodesFocused()
      modifies this`relativePointsAnchor, this`viewCalls
      ensures old(containerEndNodeHasChanged) ==>
                viewCalls == old(viewCalls) + [ViewContainerEndNodeChanged, ViewJumpToPositionAndRefresh] &&
                relativePointsAnchor == Some(containerEndNode)
      ensures !old(containerEndNodeHasChanged) ==> unchanged(this)
    {
      if containerEndNodeHasChanged {
        viewCalls := viewCalls + [ViewContainerEndNodeChanged];
        JumpToPosition();
      }
    }

    method Hide()
      modifies this`isVisible, this`viewCalls
      ensures !IsVisible()
      ensures viewCalls == old(viewCalls) + [ViewRefresh]
    {
      isVisible := false;
      viewCalls := viewCalls + [ViewRefresh];
    }

    method Show()
      modifies this`isVisible, this`viewCalls
      ensures IsVisible()
      ensures viewCalls == old(viewCalls) + [ViewRefresh]
    {
      isVisible := true;
      viewCalls := viewCalls + [ViewRefresh];
    }

    function IsVisible(): bool
      reads this`isVisible
    {
      isVisible
    }

    /** Hidden exactly when the two end nodes overlap. */
    method Refresh(overlapsWith: NodeRelation)
      modifies this`isVisible, this`viewCalls
      ensures IsVisible() <==> !overlapsWith(originNode, targetNode)
      ensures viewCalls == old(viewCalls) + [ViewRefresh]
    {
      if overlapsWith(originNode, targetNode) {
        Hide();
      } else {
        Show();
      }
    }
  }

  /** The process-wide cache of grouped dependencies, keyed by the pair of full names. */
  class DependencyCache {
    var allDependencies: map<string, GroupedDependency>

    /** Every entry sits under its own key, and no object sits under two keys. */
    ghost predicate Valid()
      reads this
    {
      (forall key | key in allDependencies :: key == allDependencies[key].Key()) &&
      (forall key1, key2 | key1 in allDependencies && key2 in allDependencies && key1 != key2 ::
         allDependencies[key1] != allDependencies[key2])
    }

    /** No cached dependency has an origin name containing `-`. */
    ghost predicate OriginNamesWithoutDash()
      reads this
    {
      forall key | key in allDependencies :: '-' !in allDependencies[key].from
    }

    /** The cached object under `key`, if any: the only object a lookup may change. */
    ghost function EntryAt(key: string): set<GroupedDependency>
      reads this
    {
      if key in allDependencies then {allDependencies[key]} else {}
    }

    constructor ()
      ensures Valid() && OriginNamesWithoutDash()
      ensures allDependencies == map[]
    {
      allDependencies := map[];
    }

    /**
     * `getOrCreateUniqueDependency`: creates the grouped dependency for a new
     * key, otherwise reuses the cached object, and in both cases overwrites its
     * type and violation flag with the arguments. The cache gains at most the
     * one key; entries under other keys are untouched.
     */
    method GetOrCreateUniqueDependency(originNode: Node, targetNode: Node, dependencyType: string, isViolation: bool,
                                       liesInFrontOf: NodeRelation)
      returns (d: GroupedDependency)
      requires Valid()
      modifies this, EntryAt(CacheKey(originNode.fullName, targetNode.fullName))
      ensures Valid()
      ensures var key := CacheKey(originNode.fullName, targetNode.fullName);
              allDependencies == old(allDependencies)[key := d] && d.Key() == key
      ensures d.dependencyType == dependencyType && d.isViolation == isViolation
      ensures var key := CacheKey(originNode.fullName, targetNode.fullName);
              key in old(allDependencies) ==>
                d == old(allDependencies[key]) &&
                unchanged(d`isVisible, d`mustShareNodes, d`containerEndNode, d`containerEndNodeHasChanged,
                          d`relativePointsAnchor, d`viewCalls)
      ensures var key := CacheKey(originNode.fullName, targetNode.fullName);
              key !in old(allDependencies) ==>
                fresh(d) && d.originNode == originNode && d.targetNode == targetNode &&
                d.from == originNode.fullName && d.to == targetNode.fullName &&
                d.InInitialState(liesInFrontOf)
      ensures var key := CacheKey(originNode.fullName, targetNode.fullName);
              forall k | k in old(allDependencies) && k != key :: unchanged(old(allDependencies)[k])
      ensures old(OriginNamesWithoutDash()) && '-' !in originNode.fullName ==>
                OriginNamesWithoutDash() && d.from == originNode.fullName && d.to == targetNode.fullName
    {
      var key := CacheKey(originNode.fullName, targetNode.fullName);
      if key !in allDependencies {
        var created := new GroupedDependency(originNode, targetNode, dependencyType, isViolation, liesInFrontOf);
        allDependencies := allDependencies[key := created];
      }
      d := allDependencies[key];
      d := d.WithTypeAndViolation(dependencyType, isViolation);
      if old(OriginNamesWithoutDash()) && '-' !in originNode.fullName {
        if key in old(allDependencies) {
          CacheKeyInjective(d.from, d.to, originNode.fullName, targetNode.fullName);
        }
      }
    }

    /** Two lookups of the same pair give the same object, carrying the second call's type and flag. */
    method GetOrCreateTwice(originNode: Node, targetNode: Node, type1: string, isViolation1: bool,
                            type2: string, isViolation2: bool, liesInFrontOf: NodeRelation)
      returns (first: GroupedDependency, second: GroupedDependency)
      requires Valid()
      modifies this, EntryAt(CacheKey(originNode.fullName, targetNode.fullName))
      ensures Valid()
      ensures first == second && second.dependencyType == type2 && second.isViolation == isViolation2
      ensures |allDependencies| <= |old(allDependencies)| + 1
    {
      first := GetOrCreateUniqueDependency(originNode, targetNode, type1, isViolation1, liesInFrontOf);
      second := GetOrCreateUniqueDependency(originNode, targetNode, type2, isViolation2, liesInFrontOf);
    }

    /**
     * `getUniqueDependency(origin, target).byGroupingDependencies(dependencies)`:
     * the cached grouped dependency for the pair, with its type derived from
     * the elementary types (plain when an end is a package) and flagged as a
     * violation exactly when some elementary dependency is one.
     */
    method ByGroupingDependencies(originNode: Node, targetNode: Node, dependencies: seq<ElementaryDependency>,
                                  colored: set<string>, dashed: set<string>, liesInFrontOf: NodeRelation)
      returns (d: GroupedDependency)
      requires Valid()
      modifies this, EntryAt(CacheKey(originNode.fullName, targetNode.fullName))
      ensures Valid()
      ensures var key := CacheKey(originNode.fullName, targetNode.fullName);
              allDependencies == old(allDependencies)[key := d] && d.Key() == key
      ensures var key := CacheKey(originNode.fullName, targetNode.fullName);
              key in old(allDependencies) ==>
                d == old(allDependencies[key]) &&
                unchanged(d`isVisible, d`mustShareNodes, d`containerEndNode, d`containerEndNodeHasChanged,
                          d`relativePointsAnchor, d`viewCalls)
      ensures var key := CacheKey(originNode.fullName, targetNode.fullName);
              key !in old(allDependencies) ==>
                fresh(d) && d.originNode == originNode && d.targetNode == targetNode &&
                d.from == originNode.fullName && d.to == targetNode.fullName &&
                d.InInitialState(liesInFrontOf)
      ensures var key := CacheKey(originNode.fullName, targetNode.fullName);
              forall k | k in old(allDependencies) && k != key :: unchanged(old(allDependencies)[k])
      ensures old(OriginNamesWithoutDash()) && '-' !in originNode.fullName ==>
                OriginNamesWithoutDash() && d.from == originNode.fullName && d.to == targetNode.fullName
      ensures d.dependencyType == GroupedDependencyType(originNode, targetNode, TypesOf(dependencies), colored, dashed)
      ensures d.isViolation <==> exists i | 0 <= i < |dependencies| :: dependencies[i].isViolation
      ensures originNode.isPackage || targetNode.isPackage ==> d.dependencyType == ""
    {
      var isViolation := SomeViolation(dependencies);
      if originNode.isPackage || targetNode.isPackage {
        d := GetOrCreateUniqueDependency(originNode, targetNode, "", isViolation, liesInFrontOf);
      } else {
        var types := TypesOf(dependencies);
        var colorType := SingleStyledDependencyType(types, colored, SeveralColors);
        var dashedType := SingleStyledDependencyType(types, dashed, SeveralDashed);
        d := GetOrCreateUniqueDependency(originNode, targetNode, JoinStrings(" ", [colorType, dashedType]),
                                         isViolation, liesInFrontOf);
      }
    }
  }
}
