/**
 * The inventory run (running.py): for every target in the project list, read
 * the cluster and the node pool, combine the two dicts into one row when both
 * are non-empty, skip the target when either read raises, and write the rows
 * out only when there is at least one.
 */
module Inventory {
  import opened Wrappers
  import opened OrderedDict
  import opened Records
  import opened GkeDetails

  /** One entry of the project list. */
  datatype Target = Target(projectId: string, location: string, clusterName: string, nodePoolName: string)

  /** What one target gives: a combined row, nothing because a half was empty, or a caught error. */
  datatype Outcome = Row(details: Details) | Incomplete | Raised(error: string)

  /** One pass of the loop body; the node pool is not read when the cluster read raises. */
  function Process(api: Api, t: Target): Outcome {
    match GetClusterDetails(api, t.projectId, t.location, t.clusterName)
    case Failure(e) => Raised(e)
    case Success(cluster) =>
      match NodePoolPart(api, t.projectId, t.location, t.clusterName, t.nodePoolName)
      case Failure(e) => Raised(e)
      case Success(nodePool) =>
        if cluster != [] && nodePool != [] then Row(Merge(cluster, nodePool)) else Incomplete
  }

  /** What each target gives, in the order of the targets. */
  function Outcomes(api: Api, targets: seq<Target>): (outcomes: seq<Outcome>)
    ensures |outcomes| == |targets|
  {
    seq(|targets|, i requires 0 <= i < |targets| => Process(api, targets[i]))
  }

  /** The rows among `outcomes`, in order. */
  function RowsOf(outcomes: seq<Outcome>): seq<Details>
    decreases |outcomes|
  {
    if outcomes == [] then []
    else
      var last := outcomes[|outcomes| - 1];
      RowsOf(outcomes[..|outcomes| - 1]) + (if last.Row? then [last.details] else [])
  }

  /** The rows collected for `targets`. */
  function Rows(api: Api, targets: seq<Target>): seq<Details> {
    RowsOf(Outcomes(api, targets))
  }

  /** The loop over the project list, appending each combined row to `allDetails`. */
  method CollectDetails(api: Api, targets: seq<Target>) returns (allDetails: seq<Details>)
    ensures allDetails == Rows(api, targets)
  {
    allDetails := [];
    for i := 0 to |targets|
      invariant allDetails == Rows(api, targets[..i])
    {
      var t := targets[i];
      assert Outcomes(api, targets[..i + 1]) == Outcomes(api, targets[..i]) + [Process(api, t)];
      var cluster := GetClusterDetails(api, t.projectId, t.location, t.clusterName);
      if cluster.Success? {
        var nodePool := GetNodePoolDetails(api, t.projectId, t.location, t.clusterName, t.nodePoolName);
        if nodePool.Success? && cluster.value != [] && nodePool.value != [] {
          var combined := Merge(cluster.value, nodePool.value);
          allDetails := allDetails + [combined];
        }
      }
    }
    assert targets[..|targets|] == targets;
  }

  /** What the run leaves behind: the CSV of all rows, or only the notice that there was nothing to save. */
  datatype Report = Csv(rows: seq<Details>) | NoDetailsNotice

  /** The file is written exactly when some row was collected, and then holds every row. */
  function Save(allDetails: seq<Details>): (r: Report)
    ensures r.Csv? <==> allDetails != []
    ensures r.Csv? ==> r.rows == allDetails
  {
    if allDetails != [] then Csv(allDetails) else NoDetailsNotice
  }

  /** The whole run: collect the rows, then save them. */
  method Run(api: Api, targets: seq<Target>) returns (report: Report)
    ensures report == Save(Rows(api, targets))
    ensures report.Csv? <==> exists i | 0 <= i < |targets| :: Process(api, targets[i]).Row?
  {
    var allDetails := CollectDetails(api, targets);
    RowsNonEmptyIff(api, targets);
    report := Save(allDetails);
  }

  lemma {:induction false} RowsOfAppend(a: seq<Outcome>, b: seq<Outcome>)
    ensures RowsOf(a + b) == RowsOf(a) + RowsOf(b)
    decreases |b|
  {
    if b == [] {
      assert a + b == a;
    } else {
      var ab := a + b;
      assert ab[..|ab| - 1] == a + b[..|b| - 1];
      assert ab[|ab| - 1] == b[|b| - 1];
      RowsOfAppend(a, b[..|b| - 1]);
    }
  }

  /** Each target contributes its own rows: collecting over `a + b` is collecting over `a`, then over `b`. */
  lemma RowsAppend(api: Api, a: seq<Target>, b: seq<Target>)
    ensures Rows(api, a + b) == Rows(api, a) + Rows(api, b)
  {
    assert Outcomes(api, a + b) == Outcomes(api, a) + Outcomes(api, b);
    RowsOfAppend(Outcomes(api, a), Outcomes(api, b));
  }

  lemma {:induction false} RowsOfBound(outcomes: seq<Outcome>)
    ensures |RowsOf(outcomes)| <= |outcomes|
    decreases |outcomes|
  {
    if outcomes != [] {
      RowsOfBound(outcomes[..|outcomes| - 1]);
    }
  }

  /** At most one row per target. */
  lemma RowsBound(api: Api, targets: seq<Target>)
    ensures |Rows(api, targets)| <= |targets|
  {
    RowsOfBound(Outcomes(api, targets));
  }

  lemma {:induction false} RowsOfNonEmptyIff(outcomes: seq<Outcome>)
    ensures RowsOf(outcomes) != [] <==> exists i | 0 <= i < |outcomes| :: outcomes[i].Row?
    decreases |outcomes|
  {
    if outcomes != [] {
      var init := outcomes[..|outcomes| - 1];
      RowsOfNonEmptyIff(init);
      assert forall i | 0 <= i < |init| :: init[i] == outcomes[i];
      if !outcomes[|outcomes| - 1].Row? {
        assert forall i | 0 <= i < |outcomes| && outcomes[i].Row? :: i < |init|;
      }
    }
  }

  /** Some row is collected exactly when some target gives one. */
  lemma RowsNonEmptyIff(api: Api, targets: seq<Target>)
    ensures Rows(api, targets) != [] <==> exists i | 0 <= i < |targets| :: Process(api, targets[i]).Row?
  {
    var outcomes := Outcomes(api, targets);
    RowsOfNonEmptyIff(outcomes);
    assert forall i | 0 <= i < |targets| :: outcomes[i] == Process(api, targets[i]);
  }

  /**
   * A target gives a row exactly when both its cluster and its node pool are
   * found; it is skipped with an error exactly when a read fails, the node pool
   * being read only when the cluster read did not fail.
   */
  lemma ProcessCases(api: Api, t: Target)
    ensures Process(api, t).Row? <==>
              api.getCluster(ClusterFullName(t.projectId, t.location, t.clusterName)).Found?
              && api.getNodePool(NodePoolFullName(t.projectId, t.location, t.clusterName, t.nodePoolName)).Found?
    ensures Process(api, t).Raised? <==>
              api.getCluster(ClusterFullName(t.projectId, t.location, t.clusterName)).Failed?
              || api.getNodePool(NodePoolFullName(t.projectId, t.location, t.clusterName, t.nodePoolName)).Failed?
  {
    var fullName := NodePoolFullName(t.projectId, t.location, t.clusterName, t.nodePoolName);
    if api.getNodePool(fullName).Found? {
      NodePoolRowShape(api.getNodePool(fullName).record);
    }
  }

  /**
   * When both reads find their record, the target's row merges the cluster dict
   * with the node-pool dict.
   */
  lemma ProcessFound(api: Api, t: Target, c: Cluster, np: NodePool)
    requires api.getCluster(ClusterFullName(t.projectId, t.location, t.clusterName)) == Found(c)
    requires api.getNodePool(NodePoolFullName(t.projectId, t.location, t.clusterName, t.nodePoolName)) == Found(np)
    ensures Process(api, t) == Row(Merge(ClusterDetails(c), NodePoolRow(np)))
  {
    NodePoolRowShape(np);
  }

  /**
   * `{**cluster_details, **node_pool_details}`: the labels never clash, so the
   * merged row is the cluster dict followed by the node-pool dict, 16 entries
   * without a node configuration and 22 with one, each label once.
   */
  lemma RowShape(c: Cluster, np: NodePool)
    ensures Merge(ClusterDetails(c), NodePoolRow(np)) == ClusterDetails(c) + NodePoolRow(np)
    ensures Keys(Merge(ClusterDetails(c), NodePoolRow(np)))
         == CLUSTER_LABELS + (NODE_POOL_LABELS + if np.config.Some? then NODE_CONFIG_LABELS else [])
    ensures UniqueKeys(Merge(ClusterDetails(c), NodePoolRow(np)))
    ensures |Merge(ClusterDetails(c), NodePoolRow(np))| == if np.config.Some? then 22 else 16
  {
    var a, b := ClusterDetails(c), NodePoolRow(np);
    ClusterDetailsShape(c);
    NodePoolRowShape(np);
    LabelsDisjoint();
    MergeDisjoint(a, b);
  }
}
