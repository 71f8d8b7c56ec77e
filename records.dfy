/**
 * The records the Kubernetes Engine API returns, as far as the inventory code
 * reads them. A sub-record the cluster may lack is an `Option` (Python `None`),
 * and a field read with `getattr(obj, name, default)` is an `Option` too; fields
 * read directly are plain values.
 */
module Records {
  import opened Wrappers

  datatype PrivateClusterConfig = PrivateClusterConfig(
    masterIpv4CidrBlock: Option<string>,
    privateEndpoint: Option<string>)

  datatype IpAllocationPolicy = IpAllocationPolicy(clusterIpv4CidrBlock: Option<string>)

  datatype MaxPodsConstraint = MaxPodsConstraint(maxPodsPerNode: Option<int>)

  datatype VerticalPodAutoscaling = VerticalPodAutoscaling(enabled: Option<bool>)

  /** The cluster autoscaling sub-record; the code reads an attribute named `profile`. */
  datatype ClusterAutoscaling = ClusterAutoscaling(profile: Option<string>)

  datatype Cluster = Cluster(
    name: string,
    currentMasterVersion: string,
    privateClusterConfig: Option<PrivateClusterConfig>,
    network: string,
    subnetwork: string,
    ipAllocationPolicy: Option<IpAllocationPolicy>,
    defaultMaxPodsConstraint: Option<MaxPodsConstraint>,
    resourceLabels: map<string, string>,
    verticalPodAutoscaling: Option<VerticalPodAutoscaling>,
    autoscaling: Option<ClusterAutoscaling>)
  {
    /** `getattr(cluster.private_cluster_config, "master_ipv4_cidr_block", ...)` without its default. */
    function MasterIpv4CidrBlock(): Option<string> {
      match privateClusterConfig
      case Some(p) => p.masterIpv4CidrBlock
      case None => None
    }

    function PrivateEndpoint(): Option<string> {
      match privateClusterConfig
      case Some(p) => p.privateEndpoint
      case None => None
    }

    function ClusterIpv4CidrBlock(): Option<string> {
      match ipAllocationPolicy
      case Some(p) => p.clusterIpv4CidrBlock
      case None => None
    }

    function MaxPodsPerNode(): Option<int> {
      match defaultMaxPodsConstraint
      case Some(m) => m.maxPodsPerNode
      case None => None
    }

    function VpaEnabled(): Option<bool> {
      match verticalPodAutoscaling
      case Some(v) => v.enabled
      case None => None
    }

    function AutoscalingProfile(): Option<string> {
      match autoscaling
      case Some(a) => a.profile
      case None => None
    }
  }

  /** A node taint; only key and value are reported. */
  datatype Taint = Taint(key: string, value: string, effect: string)

  datatype NodeConfig = NodeConfig(
    imageType: Option<string>,
    machineType: Option<string>,
    diskType: Option<string>,
    diskSizeGb: Option<int>,
    taints: Option<seq<Taint>>,
    metadata: Option<map<string, string>>)

  datatype NodePoolAutoscaling = NodePoolAutoscaling(enabled: Option<bool>)

  /**
   * A node pool. `instanceGroupUrls`, `initialNodeCount` and `config` are the
   * attributes the code tests with `hasattr`.
   */
  datatype NodePool = NodePool(
    name: string,
    version: string,
    instanceGroupUrls: Option<seq<string>>,
    initialNodeCount: Option<int>,
    autoscaling: Option<NodePoolAutoscaling>,
    locations: seq<string>,
    config: Option<NodeConfig>)
  {
    function AutoscalingEnabled(): Option<bool> {
      match autoscaling
      case Some(a) => a.enabled
      case None => None
    }
  }

  /** What one read call of the API gives: the record, `NotFound`, or any other error. */
  datatype Fetch<T> = Found(record: T) | NotFound | Failed(error: string)

  /** The cluster manager client: each read is a function of the fully-qualified resource name. */
  datatype Api = Api(
    getCluster: string -> Fetch<Cluster>,
    getNodePool: string -> Fetch<NodePool>)
}
