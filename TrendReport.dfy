/** The trend report's selection of targets: a list kept unique by target id. Persistence in
    the browser's storage is not modelled. */
module TrendReport {
  import opened Wrappers
  import Seqs

  /** A selected target with the names shown beside it. */
  datatype Target = Target(productGroupId: int, productGroupName: string, processId: int,
                           processName: string, targetId: int, targetName: string)

  /** No two entries share a target id. */
  predicate UniqueIds(ts: seq<Target>)
  {
    forall i, j :: 0 <= i < |ts| && 0 <= j < |ts| && i != j ==> ts[i].targetId != ts[j].targetId
  }

  class TargetManager {
    var targets: seq<Target>

    constructor()
      ensures targets == []
    {
      targets := [];
    }

    /** `addTarget`: refused when the id is already selected, otherwise appended. */
    method AddTarget(target: Target) returns (added: bool)
      modifies this
      ensures added <==> forall t :: t in old(targets) ==> t.targetId != target.targetId
      ensures added ==> targets == old(targets) + [target]
      ensures !added ==> targets == old(targets)
      ensures UniqueIds(old(targets)) ==> UniqueIds(targets)
    {
      var exists_ := Seqs.FindFirst(targets, (t: Target) => t.targetId == target.targetId).Some?;
      if !exists_ {
        targets := targets + [target];
        return true;
      }
      return false;
    }

    /** `removeTarget`: drops every entry with the id; true iff the list got shorter. */
    method RemoveTarget(targetId: int) returns (removed: bool)
      modifies this
      ensures targets == Seqs.Filter(old(targets), (t: Target) => t.targetId != targetId)
      ensures forall t :: t in targets <==> t in old(targets) && t.targetId != targetId
      ensures removed <==> exists t :: t in old(targets) && t.targetId == targetId
      ensures UniqueIds(old(targets)) ==> UniqueIds(targets)
    {
      var initialLength := |targets|;
      ghost var before := targets;
      targets := Seqs.Filter(targets, (t: Target) => t.targetId != targetId);
      FilterKeepsUniqueIds(before, targetId);
      removed := initialLength != |targets|;
    }

    /** `getAllTargets`: a copy of the list. */
    function GetAllTargets(): (r: seq<Target>)
      reads this
      ensures r == targets
    {
      targets[..]
    }

    /** `getTargetById`: the first entry with the id. */
    function GetTargetById(targetId: int): (r: Option<Target>)
      reads this
      ensures r.Some? ==> r.value in targets && r.value.targetId == targetId
      ensures r.Some? ==> exists k :: (0 <= k < |targets| && targets[k] == r.value &&
        forall j :: 0 <= j < k ==> targets[j].targetId != targetId)
      ensures r.None? <==> forall t :: t in targets ==> t.targetId != targetId
    {
      match Seqs.FindFirst(targets, (t: Target) => t.targetId == targetId)
      case None => None
      case Some(k) => Some(targets[k])
    }

    /** `hasTargets`. */
    function HasTargets(): (b: bool)
      reads this
      ensures b <==> targets != []
    {
      |targets| > 0
    }

    /** `clearTargets`. */
    method ClearTargets()
      modifies this
      ensures targets == [] && !HasTargets()
    {
      targets := [];
    }
  }

  /** Filtering out one id keeps the remaining ids unique. */
  lemma FilterKeepsUniqueIds(ts: seq<Target>, targetId: int)
    ensures UniqueIds(ts) ==> UniqueIds(Seqs.Filter(ts, (t: Target) => t.targetId != targetId))
  {
    var rel := (a: Target, b: Target) => a.targetId != b.targetId;
    if UniqueIds(ts) {
      assert Seqs.Pairwise(ts, rel);
      Seqs.FilterKeepsPairwise(ts, (t: Target) => t.targetId != targetId, rel);
      var r := Seqs.Filter(ts, (t: Target) => t.targetId != targetId);
      assert Seqs.Pairwise(r, rel);
      forall i, j | 0 <= i < |r| && 0 <= j < |r| && i != j ensures r[i].targetId != r[j].targetId {
        if i < j { assert rel(r[i], r[j]); } else { assert rel(r[j], r[i]); }
      }
    }
  }
}
