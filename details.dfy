/**
 * Field extraction from one cluster and one node pool (main.py): the lookup
 * tables for image and disk types, the fully-qualified resource names, the
 * cluster details, the node-pool details, the node count and the taint text.
 * Each function yields a dict from a fixed display label to a value.
 */
module GkeDetails {
  import opened Wrappers
  import opened OrderedDict
  import opened Text
  import opened Records

  /** A value in a details dict: text, a number, or a mapping or list passed through as read. */
  datatype Value = Str(text: string) | Num(number: int) | StrMap(entries: map<string, string>) | StrList(items: seq<string>)

  type Details = Dict<string, Value>

  /** The fallback for a field that is absent. */
  const NOT_AVAILABLE := "Not available"

  const IMAGE_TYPES: map<string, string> := map[
    "COS_CONTAINERD" := "Container-Optimized OS with containerd (cos_containerd)",
    "UBUNTU" := "Ubuntu",
    "UBUNTU_CONTAINERD" := "Ubuntu with containerd",
    "CUSTOM_IMAGE" := "Custom Image",
    "ML_IMAGE" := "Machine Learning Optimized Image",
    "BIG_DATA_IMAGE" := "Big Data Optimized Image",
    "LEGACY_IMAGE" := "Legacy Image"
  ]

  const DISK_TYPES: map<string, string> := map[
    "pd-standard" := "Standard persistent disk",
    "pd-balanced" := "Balanced persistent disk",
    "pd-ssd" := "SSD persistent disk",
    "regional-ssd" := "Regional SSD",
    "local-ssd" := "Local SSD",
    "confidential-vm" := "Confidential VM"
  ]

  // ---------------------------------------------------------------------------
  // Lookup tables

  /** `table.get(token, token)`: the display label of a known token, the token itself otherwise. */
  function Lookup(table: map<string, string>, token: string): (shown: string)
    ensures token in table ==> shown == table[token]
    ensures token !in table ==> shown == token
  {
    if token in table then table[token] else token
  }

  /** No token of a table is its own display label. */
  predicate Translates(table: map<string, string>) {
    forall t | t in table :: table[t] != t
  }

  /**
   * Both tables turn every token they know into a different label, so a value
   * is shown as is exactly when the table does not know it; the fallback
   * "Not available" is shown as is.
   */
  lemma ShownAsIs(token: string)
    ensures Lookup(IMAGE_TYPES, token) == token <==> token !in IMAGE_TYPES
    ensures Lookup(DISK_TYPES, token) == token <==> token !in DISK_TYPES
    ensures Lookup(IMAGE_TYPES, NOT_AVAILABLE) == NOT_AVAILABLE
    ensures Lookup(DISK_TYPES, NOT_AVAILABLE) == NOT_AVAILABLE
  {
    ImageTypesTranslate();
    DiskTypesTranslate();
  }

  lemma ImageTypesTranslate()
    ensures Translates(IMAGE_TYPES)
  {
    assert forall t | t in IMAGE_TYPES :: IMAGE_TYPES[t] != t;
  }

  lemma DiskTypesTranslate()
    ensures Translates(DISK_TYPES)
  {
    assert forall t | t in DISK_TYPES :: DISK_TYPES[t] != t;
  }

  // ---------------------------------------------------------------------------
  // Resource names

  function ClusterFullName(projectId: string, location: string, clusterName: string): string {
    "projects/" + projectId + "/locations/" + location + "/clusters/" + clusterName
  }

  function NodePoolFullName(projectId: string, location: string, clusterName: string, nodePoolName: string): string {
    "projects/" + projectId + "/locations/" + location + "/clusters/" + clusterName + "/nodePools/" + nodePoolName
  }

  predicate NoSlash(s: string) {
    '/' !in s
  }

  lemma JoinPrepend(x: string, items: seq<string>, sep: string)
    requires items != []
    ensures Join([x] + items, sep) == x + sep + Join(items, sep)
  {
    assert ([x] + items)[1..] == items;
  }

  /** Text followed by `/word/` and a last component without `/` splits into the pieces of the text, the word and the component. */
  lemma SplitAfterWord(front: string, word: string, last: string)
    requires NoSlash(word) && NoSlash(last)
    ensures Split(front + ("/" + word + "/") + last, '/') == Split(front, '/') + [word, last]
  {
    assert front + ("/" + word + "/") + last == front + ['/'] + word + ['/'] + last;
    SplitLast(front + ['/'] + word, '/', last);
    SplitLast(front, '/', word);
  }

  /**
   * The cluster name is six `/`-separated segments carrying the project, the
   * location and the cluster: when no component holds a `/`, splitting the
   * name gives the components back.
   */
  lemma ClusterNameSegments(projectId: string, location: string, clusterName: string)
    requires NoSlash(projectId) && NoSlash(location) && NoSlash(clusterName)
    ensures Split(ClusterFullName(projectId, location, clusterName), '/')
         == ["projects", projectId, "locations", location, "clusters", clusterName]
  {
    ProjectSegments(projectId);
    assert "/locations/" == "/" + "locations" + "/";
    assert "/clusters/" == "/" + "clusters" + "/";
    SplitAfterWord("projects/" + projectId, "locations", location);
    SplitAfterWord("projects/" + projectId + "/locations/" + location, "clusters", clusterName);
  }

  lemma ProjectSegments(projectId: string)
    requires NoSlash(projectId)
    ensures Split("projects/" + projectId, '/') == ["projects", projectId]
  {
    assert "projects/" + projectId == "projects" + ['/'] + projectId;
    SplitLast("projects", '/', projectId);
    SplitNone("projects", '/');
  }

  /** The node-pool name is the name of its cluster followed by `/nodePools/` and the pool, whatever the components. */
  lemma NodePoolNameExtendsCluster(projectId: string, location: string, clusterName: string, nodePoolName: string)
    ensures NodePoolFullName(projectId, location, clusterName, nodePoolName)
         == ClusterFullName(projectId, location, clusterName) + "/nodePools/" + nodePoolName
  {
  }

  /** The node-pool name is eight segments; splitting it gives the components back. */
  lemma NodePoolNameSegments(projectId: string, location: string, clusterName: string, nodePoolName: string)
    requires NoSlash(projectId) && NoSlash(location) && NoSlash(clusterName) && NoSlash(nodePoolName)
    ensures Split(NodePoolFullName(projectId, location, clusterName, nodePoolName), '/')
         == ["projects", projectId, "locations", location, "clusters", clusterName, "nodePools", nodePoolName]
  {
    ClusterNameSegments(projectId, location, clusterName);
    NodePoolNameExtendsCluster(projectId, location, clusterName, nodePoolName);
    assert "/nodePools/" == "/" + "nodePools" + "/";
    SplitAfterWord(ClusterFullName(projectId, location, clusterName), "nodePools", nodePoolName);
  }

  // ---------------------------------------------------------------------------
  // Dict labels

  const CLUSTER_LABELS: seq<string> := [
    "Cluster Name", "Version Cluster", "Control plane address range", "Private Endpoint",
    "Network", "Subnet", "Cluster Pod IPv4 range (default)", "Maximum Pods per Node",
    "Labels", "Vertical Pod Autoscaling", "Autoscaling profile"]

  const NODE_POOL_LABELS: seq<string> := [
    "Node Pool name", "Node version", "Number of nodes", "Autoscaling", "Node zones"]

  /** The labels added when the node pool has a `config`. */
  const NODE_CONFIG_LABELS: seq<string> := [
    "Image type", "Machine type", "Boot disk type", "Boot disk size (per node)",
    "Taints", "GCE instance metadata"]

  lemma ClusterLabelsDistinct()
    ensures Distinct(CLUSTER_LABELS)
  {
    var labels := CLUSTER_LABELS;
    assert forall i, j | 0 <= i < j < |labels| :: labels[i] != labels[j];
    DistinctPairwise(labels);
  }

  /** No node-pool label is also a cluster label. */
  lemma LabelsDisjoint()
    ensures forall k | k in NODE_POOL_LABELS :: k !in CLUSTER_LABELS
    ensures forall k | k in NODE_CONFIG_LABELS :: k !in CLUSTER_LABELS
  {
  }

  // ---------------------------------------------------------------------------
  // Cluster details

  /** `getattr(record, field, "Not available")` of a text field. */
  function TextOr(o: Option<string>): Value {
    Str(o.GetOr(NOT_AVAILABLE))
  }

  /** `getattr(record, field, "Not available")` of a numeric field. */
  function NumberOr(o: Option<int>): Value {
    match o
    case Some(n) => Num(n)
    case None => Str(NOT_AVAILABLE)
  }

  /** The cluster dict: eleven labels in a fixed order. */
  function ClusterDetails(c: Cluster): Details {
    [ ("Cluster Name", Str(c.name)),
      ("Version Cluster", Str(c.currentMasterVersion)),
      ("Control plane address range", TextOr(c.MasterIpv4CidrBlock())),
      ("Private Endpoint", TextOr(c.PrivateEndpoint())),
      ("Network", Str(c.network)),
      ("Subnet", Str(c.subnetwork)),
      ("Cluster Pod IPv4 range (default)", TextOr(c.ClusterIpv4CidrBlock())),
      ("Maximum Pods per Node", NumberOr(c.MaxPodsPerNode())),
      ("Labels", StrMap(c.resourceLabels)),
      ("Vertical Pod Autoscaling", Str(if c.VpaEnabled().GetOr(false) == false then "disabled" else "enabled")),
      ("Autoscaling profile", TextOr(c.AutoscalingProfile())) ]
  }

  /** The cluster dict holds exactly the cluster labels, in order, each once. */
  lemma ClusterDetailsShape(c: Cluster)
    ensures Keys(ClusterDetails(c)) == CLUSTER_LABELS
    ensures UniqueKeys(ClusterDetails(c))
  {
    var d := ClusterDetails(c);
    KeysIndexed(d);
    assert Keys(d) == CLUSTER_LABELS;
    ClusterLabelsDistinct();
  }

  /** What the cluster dict reports of the fields read directly: they pass through as read. */
  lemma ClusterFields(c: Cluster)
    ensures Get(ClusterDetails(c), "Cluster Name") == Some(Str(c.name))
    ensures Get(ClusterDetails(c), "Version Cluster") == Some(Str(c.currentMasterVersion))
    ensures Get(ClusterDetails(c), "Network") == Some(Str(c.network))
    ensures Get(ClusterDetails(c), "Subnet") == Some(Str(c.subnetwork))
    ensures Get(ClusterDetails(c), "Labels") == Some(StrMap(c.resourceLabels))
  {
    var d := ClusterDetails(c);
    ClusterDetailsShape(c);
    GetAt(d, 0);
    GetAt(d, 1);
    GetAt(d, 4);
    GetAt(d, 5);
    GetAt(d, 8);
  }

  /**
   * Vertical pod autoscaling reads "enabled" exactly when it is switched on, and
   * "disabled" when it is off or not reported; no label beyond the cluster
   * labels is present.
   */
  lemma ClusterVpaField(c: Cluster)
    ensures Get(ClusterDetails(c), "Vertical Pod Autoscaling") == Some(Str("enabled")) <==> c.VpaEnabled() == Some(true)
    ensures Get(ClusterDetails(c), "Vertical Pod Autoscaling") == Some(Str("disabled")) <==> c.VpaEnabled() != Some(true)
    ensures forall k :: Get(ClusterDetails(c), k).Some? <==> k in CLUSTER_LABELS
  {
    ClusterDetailsShape(c);
    GetAt(ClusterDetails(c), 9);
  }

  /**
   * What the cluster dict reports of the fields read with a default: the value
   * when the field is there, and "Not available" when it is not, whether the
   * sub-record lacks it or the sub-record itself is missing.
   */
  lemma ClusterDefaultedFields(c: Cluster)
    ensures Get(ClusterDetails(c), "Control plane address range") == Some(Str(c.MasterIpv4CidrBlock().GetOr(NOT_AVAILABLE)))
    ensures Get(ClusterDetails(c), "Private Endpoint") == Some(Str(c.PrivateEndpoint().GetOr(NOT_AVAILABLE)))
    ensures Get(ClusterDetails(c), "Cluster Pod IPv4 range (default)") == Some(Str(c.ClusterIpv4CidrBlock().GetOr(NOT_AVAILABLE)))
    ensures c.MaxPodsPerNode().Some? ==>
              Get(ClusterDetails(c), "Maximum Pods per Node") == Some(Num(c.MaxPodsPerNode().value))
    ensures c.MaxPodsPerNode().None? ==>
              Get(ClusterDetails(c), "Maximum Pods per Node") == Some(Str(NOT_AVAILABLE))
    ensures Get(ClusterDetails(c), "Autoscaling profile") == Some(Str(c.AutoscalingProfile().GetOr(NOT_AVAILABLE)))
    ensures c.privateClusterConfig.None? ==>
              Get(ClusterDetails(c), "Control plane address range") == Some(Str(NOT_AVAILABLE))
              && Get(ClusterDetails(c), "Private Endpoint") == Some(Str(NOT_AVAILABLE))
  {
    var d := ClusterDetails(c);
    ClusterDetailsShape(c);
    GetAt(d, 2);
    GetAt(d, 3);
    GetAt(d, 6);
    GetAt(d, 7);
    GetAt(d, 10);
  }

  /**
   * `get_cluster_details`: the cluster dict when the cluster exists, an empty dict
   * when the API answers NotFound, and any other error raised to the caller.
   */
  function GetClusterDetails(api: Api, projectId: string, location: string, clusterName: string): (r: Result<Details, string>)
    ensures r.Failure? <==> api.getCluster(ClusterFullName(projectId, location, clusterName)).Failed?
    ensures r == Success([]) <==> api.getCluster(ClusterFullName(projectId, location, clusterName)).NotFound?
    ensures r.Success? && r.value != [] ==> Keys(r.value) == CLUSTER_LABELS && UniqueKeys(r.value)
    ensures api.getCluster(ClusterFullName(projectId, location, clusterName)).Found? ==>
              r == Success(ClusterDetails(api.getCluster(ClusterFullName(projectId, location, clusterName)).record))
  {
    match api.getCluster(ClusterFullName(projectId, location, clusterName))
    case Found(c) =>
      ClusterDetailsShape(c);
      Success(ClusterDetails(c))
    case NotFound => Success([])
    case Failed(e) => Failure(e)
  }

  // ---------------------------------------------------------------------------
  // Node count and disk size

  /** The whole number at the start of a text, up to the first blank; how a reader of the report takes a count. */
  function LeadingInt(s: string): Option<int> {
    ParseInt(Split(s, ' ')[0])
  }

  lemma IntTextNoBlank(n: int)
    ensures ' ' !in IntText(n)
  {
    var t := NatText(if n < 0 then -n else n);
    assert forall i | 0 <= i < |t| :: IsDigit(t[i]);
    if n < 0 {
      assert IntText(n) == "-" + t;
    }
  }

  /**
   * `calculate_total_nodes`: with instance group URLs, their number followed by
   * the per-zone figure; else with an initial node count, that count; else
   * "Not available".
   */
  function NodeCount(np: NodePool): string {
    if np.instanceGroupUrls.Some? then
      IntText(|np.instanceGroupUrls.value|) + " total (1 per zone)"
    else if np.initialNodeCount.Some? then
      IntText(np.initialNodeCount.value) + " total"
    else
      NOT_AVAILABLE
  }

  /** Text made of blank-free words joined by single blanks splits back into those words. */
  lemma SplitWords(words: seq<string>)
    requires |words| >= 1
    requires forall i | 0 <= i < |words| :: ' ' !in words[i]
    ensures Split(Join(words, " "), ' ') == words
  {
    SplitJoin(words, ' ');
  }

  /**
   * The node count reads back as the number of instance groups when there are
   * any, else as the initial node count, and as no number otherwise; the
   * per-zone figure is always the constant 1, whatever the zones.
   */
  lemma NodeCountReadsBack(np: NodePool)
    ensures np.instanceGroupUrls.Some? ==>
              Split(NodeCount(np), ' ') == [IntText(|np.instanceGroupUrls.value|), "total", "(1", "per", "zone)"]
              && LeadingInt(NodeCount(np)) == Some(|np.instanceGroupUrls.value|)
    ensures np.instanceGroupUrls.None? && np.initialNodeCount.Some? ==>
              Split(NodeCount(np), ' ') == [IntText(np.initialNodeCount.value), "total"]
              && LeadingInt(NodeCount(np)) == Some(np.initialNodeCount.value)
    ensures np.instanceGroupUrls.None? && np.initialNodeCount.None? ==>
              NodeCount(np) == NOT_AVAILABLE && LeadingInt(NodeCount(np)) == None
  {
    if np.instanceGroupUrls.Some? {
      var n := |np.instanceGroupUrls.value|;
      IntTextNoBlank(n);
      IntTextRoundTrip(n);
      GroupCountWords(IntText(n));
    } else if np.initialNodeCount.Some? {
      var n := np.initialNodeCount.value;
      IntTextNoBlank(n);
      IntTextRoundTrip(n);
      var words := [IntText(n), "total"];
      assert Join(words, " ") == NodeCount(np);
      SplitWords(words);
    } else {
      NotAvailableWords();
    }
  }

  lemma GroupCountWords(count: string)
    requires ' ' !in count
    ensures Split(count + " total (1 per zone)", ' ') == [count, "total", "(1", "per", "zone)"]
  {
    var tail := ["total", "(1", "per", "zone)"];
    TailWords();
    JoinPrepend(count, tail, " ");
    assert " " + "total (1 per zone)" == " total (1 per zone)";
    assert count + " " + "total (1 per zone)" == count + " total (1 per zone)";
    SplitWords([count] + tail);
  }

  lemma TailWords()
    ensures Join(["total", "(1", "per", "zone)"], " ") == "total (1 per zone)"
  {
  }

  /** "Not available" is two words, the first not a number. */
  lemma NotAvailableWords()
    ensures Split(NOT_AVAILABLE, ' ') == ["Not", "available"]
    ensures LeadingInt(NOT_AVAILABLE) == None
  {
    var words := ["Not", "available"];
    assert Join(words, " ") == NOT_AVAILABLE;
    SplitWords(words);
    assert !IsDigit('N');
  }

  /** The boot disk size: `f"{size} GB"`, where a missing size prints as "Not available". */
  function BootDiskSize(sizeGb: Option<int>): string {
    (match sizeGb
     case Some(n) => IntText(n)
     case None => NOT_AVAILABLE) + " GB"
  }

  lemma NotAvailableGbWords()
    ensures Split(NOT_AVAILABLE + " GB", ' ') == ["Not", "available", "GB"]
    ensures LeadingInt(NOT_AVAILABLE + " GB") == None
  {
    var words := ["Not", "available", "GB"];
    assert Join(words[1..], " ") == "available GB";
    assert Join(words, " ") == NOT_AVAILABLE + " GB";
    SplitWords(words);
    assert !IsDigit('N');
  }

  /** The disk size reads back as the size in GB when there is one, and as no number otherwise. */
  lemma BootDiskSizeReadsBack(sizeGb: Option<int>)
    ensures sizeGb.Some? ==> Split(BootDiskSize(sizeGb), ' ') == [IntText(sizeGb.value), "GB"]
    ensures sizeGb.None? ==> Split(BootDiskSize(sizeGb), ' ') == ["Not", "available", "GB"]
    ensures LeadingInt(BootDiskSize(sizeGb)) == sizeGb
  {
    if sizeGb.Some? {
      var n := sizeGb.value;
      IntTextNoBlank(n);
      IntTextRoundTrip(n);
      var words := [IntText(n), "GB"];
      assert Join(words, " ") == BootDiskSize(sizeGb);
      SplitWords(words);
    } else {
      NotAvailableGbWords();
    }
  }

  // ---------------------------------------------------------------------------
  // Taints

  /** One taint as `key=value`; the effect is not reported. */
  function KeyValue(t: Taint): string {
    t.key + "=" + t.value
  }

  function TaintPairs(taints: seq<Taint>): seq<string> {
    seq(|taints|, i requires 0 <= i < |taints| => KeyValue(taints[i]))
  }

  /** The taint text: "Not available" for no taints, else every `key=value` joined by ", ". */
  function TaintsText(taints: Option<seq<Taint>>): string {
    if taints.None? || taints.value == [] then NOT_AVAILABLE
    else Join(TaintPairs(taints.value), ", ")
  }

  /** `get_taints`: formats the taints one by one, then joins them. */
  method FormatTaints(taints: Option<seq<Taint>>) returns (text: string)
    ensures text == TaintsText(taints)
  {
    if taints.None? || taints.value == [] {
      return NOT_AVAILABLE;
    }
    var ts := taints.value;
    var formatted: seq<string> := [];
    for i := 0 to |ts|
      invariant |formatted| == i
      invariant forall k | 0 <= k < i :: formatted[k] == KeyValue(ts[k])
    {
      var keyValue := ts[i].key + "=" + ts[i].value;
      formatted := formatted + [keyValue];
    }
    assert formatted == TaintPairs(ts);
    text := Join(formatted, ", ");
  }

  /**
   * The taint text lists every taint in order: taint `i` appears as `key=value`
   * at its offset, consecutive taints are separated by ", ", and the text
   * ends right after the last taint.
   */
  lemma TaintsLayout(taints: seq<Taint>, i: nat)
    requires i < |taints|
    ensures Offset(TaintPairs(taints), ", ", i) + |KeyValue(taints[i])| <= |TaintsText(Some(taints))|
    ensures TaintsText(Some(taints))[Offset(TaintPairs(taints), ", ", i)..Offset(TaintPairs(taints), ", ", i) + |KeyValue(taints[i])|]
         == taints[i].key + "=" + taints[i].value
    ensures i + 1 < |taints| ==>
              Offset(TaintPairs(taints), ", ", i + 1) <= |TaintsText(Some(taints))|
              && Offset(TaintPairs(taints), ", ", i + 1) == Offset(TaintPairs(taints), ", ", i) + |KeyValue(taints[i])| + 2
              && TaintsText(Some(taints))[Offset(TaintPairs(taints), ", ", i) + |KeyValue(taints[i])|..Offset(TaintPairs(taints), ", ", i + 1)] == ", "
    ensures |TaintsText(Some(taints))| == Offset(TaintPairs(taints), ", ", |taints| - 1) + |KeyValue(taints[|taints| - 1])|
  {
    var pairs := TaintPairs(taints);
    JoinItemAt(pairs, ", ", i);
    JoinLength(pairs, ", ");
    if i + 1 < |taints| {
      JoinSepAfter(pairs, ", ", i);
    }
  }

  /** The taint text is "Not available" exactly when there are no taints: any taint puts an `=` in it. */
  lemma TaintsNotAvailableIff(taints: Option<seq<Taint>>)
    ensures TaintsText(taints) == NOT_AVAILABLE <==> taints.None? || taints.value == []
  {
    if taints.Some? && taints.value != [] {
      var t := taints.value[0];
      TaintsLayout(taints.value, 0);
      var text := TaintsText(taints);
      assert text[|t.key|] == '=' by {
        assert text[0..|KeyValue(t)|] == t.key + "=" + t.value;
        assert (t.key + "=" + t.value)[|t.key|] == '=';
      }
      assert '=' !in NOT_AVAILABLE;
    }
  }

  // ---------------------------------------------------------------------------
  // Node-pool details

  /** The five entries every node-pool dict starts with. */
  function BaseEntries(np: NodePool): Details {
    [ ("Node Pool name", Str(np.name)),
      ("Node version", Str(np.version)),
      ("Number of nodes", Str(NodeCount(np))),
      ("Autoscaling", Str(if np.AutoscalingEnabled().GetOr(false) then "On" else "Off")),
      ("Node zones", StrList(np.locations)) ]
  }

  /** The six entries read from the node configuration, given the formatted taints. */
  function ConfigEntries(cfg: NodeConfig, taintsText: string): Details {
    [ ("Image type", Str(Lookup(IMAGE_TYPES, cfg.imageType.GetOr(NOT_AVAILABLE)))),
      ("Machine type", TextOr(cfg.machineType)),
      ("Boot disk type", Str(Lookup(DISK_TYPES, cfg.diskType.GetOr(NOT_AVAILABLE)))),
      ("Boot disk size (per node)", Str(BootDiskSize(cfg.diskSizeGb))),
      ("Taints", Str(taintsText)),
      ("GCE instance metadata", match cfg.metadata case Some(m) => StrMap(m) case None => Str(NOT_AVAILABLE)) ]
  }

  /** The node-pool dict: the base entries, followed by the configuration entries when there is a configuration. */
  function NodePoolRow(np: NodePool): Details {
    BaseEntries(np)
      + match np.config
        case Some(cfg) => ConfigEntries(cfg, TaintsText(cfg.taints))
        case None => []
  }

  lemma EntryKeys(np: NodePool, cfg: NodeConfig, taintsText: string)
    ensures Keys(BaseEntries(np)) == NODE_POOL_LABELS
    ensures Keys(ConfigEntries(cfg, taintsText)) == NODE_CONFIG_LABELS
  {
    KeysIndexed(BaseEntries(np));
    KeysIndexed(ConfigEntries(cfg, taintsText));
  }

  /** The base labels and the configuration labels are each distinct, and no label is in both. */
  lemma NodePoolLabelsDistinct()
    ensures Distinct(NODE_POOL_LABELS) && Distinct(NODE_CONFIG_LABELS)
    ensures forall k | k in NODE_CONFIG_LABELS :: k !in NODE_POOL_LABELS
  {
    DistinctPairwise(NODE_POOL_LABELS + NODE_CONFIG_LABELS);
    DistinctSplit(NODE_POOL_LABELS, NODE_CONFIG_LABELS);
  }

  /**
   * The node-pool dict holds the five base labels, then the six configuration
   * labels exactly when the node pool has a configuration; no label twice.
   */
  lemma NodePoolRowShape(np: NodePool)
    ensures Keys(NodePoolRow(np)) == NODE_POOL_LABELS + (if np.config.Some? then NODE_CONFIG_LABELS else [])
    ensures UniqueKeys(NodePoolRow(np))
    ensures |NodePoolRow(np)| == if np.config.Some? then 11 else 5
  {
    var cfg := np.config.GetOr(NodeConfig(None, None, None, None, None, None));
    EntryKeys(np, cfg, TaintsText(cfg.taints));
    NodePoolLabelsDistinct();
    if np.config.Some? {
      KeysAppend(BaseEntries(np), ConfigEntries(cfg, TaintsText(cfg.taints)));
      DistinctConcat(NODE_POOL_LABELS, NODE_CONFIG_LABELS);
    } else {
      assert NodePoolRow(np) == BaseEntries(np);
    }
  }

  /**
   * `get_node_pool_details` once the node pool is read: the base dict, updated in
   * place with the configuration entries when the node pool has a configuration.
   */
  method NodePoolDetails(np: NodePool) returns (details: Details)
    ensures details == NodePoolRow(np)
  {
    details := BaseEntries(np);
    if np.config.Some? {
      var cfg := np.config.value;
      var taintsText := FormatTaints(cfg.taints);
      var extra := ConfigEntries(cfg, taintsText);
      EntryKeys(np, cfg, taintsText);
      NodePoolLabelsDistinct();
      UpdateDisjoint(details, extra);
      details := Update(details, extra);
    }
  }

  /**
   * What the node-pool dict reports from the node pool itself: the count and the
   * zones as read, and autoscaling "On" exactly when it is switched on.
   */
  lemma NodePoolBaseFields(np: NodePool)
    ensures Get(NodePoolRow(np), "Node Pool name") == Some(Str(np.name))
    ensures Get(NodePoolRow(np), "Node version") == Some(Str(np.version))
    ensures Get(NodePoolRow(np), "Number of nodes") == Some(Str(NodeCount(np)))
    ensures Get(NodePoolRow(np), "Node zones") == Some(StrList(np.locations))
    ensures Get(NodePoolRow(np), "Autoscaling") == Some(Str("On")) <==> np.AutoscalingEnabled() == Some(true)
    ensures Get(NodePoolRow(np), "Autoscaling") == Some(Str("Off")) <==> np.AutoscalingEnabled() != Some(true)
  {
    var d := NodePoolRow(np);
    NodePoolRowShape(np);
    GetAt(d, 0);
    GetAt(d, 1);
    GetAt(d, 2);
    GetAt(d, 3);
    GetAt(d, 4);
  }

  /**
   * What the node-pool dict reports from the configuration: its labels are there
   * exactly when the configuration is, with the taint text, the disk size and
   * the instance metadata, which reads "Not available" when it is missing.
   */
  lemma NodePoolConfigFields(np: NodePool)
    ensures Get(NodePoolRow(np), "Taints").Some? <==> np.config.Some?
    ensures Get(NodePoolRow(np), "GCE instance metadata").Some? <==> np.config.Some?
    ensures np.config.Some? ==> Get(NodePoolRow(np), "Taints") == Some(Str(TaintsText(np.config.value.taints)))
    ensures np.config.Some? ==> Get(NodePoolRow(np), "Boot disk size (per node)") == Some(Str(BootDiskSize(np.config.value.diskSizeGb)))
    ensures np.config.Some? && np.config.value.metadata.Some? ==>
              Get(NodePoolRow(np), "GCE instance metadata") == Some(StrMap(np.config.value.metadata.value))
    ensures np.config.Some? && np.config.value.metadata.None? ==>
              Get(NodePoolRow(np), "GCE instance metadata") == Some(Str(NOT_AVAILABLE))
  {
    NodePoolRowShape(np);
    if np.config.Some? {
      ConfigGet(np, 3);
      ConfigGet(np, 4);
      ConfigGet(np, 5);
    } else {
      assert "Taints" !in NODE_POOL_LABELS;
      assert "GCE instance metadata" !in NODE_POOL_LABELS;
    }
  }

  /**
   * The image and disk types of the configuration are shown translated through
   * their tables, and the machine type as read; a missing one reads
   * "Not available".
   */
  lemma NodePoolConfigTypes(np: NodePool)
    requires np.config.Some?
    ensures Get(NodePoolRow(np), "Image type") == Some(Str(Lookup(IMAGE_TYPES, np.config.value.imageType.GetOr(NOT_AVAILABLE))))
    ensures Get(NodePoolRow(np), "Machine type") == Some(Str(np.config.value.machineType.GetOr(NOT_AVAILABLE)))
    ensures Get(NodePoolRow(np), "Boot disk type") == Some(Str(Lookup(DISK_TYPES, np.config.value.diskType.GetOr(NOT_AVAILABLE))))
    ensures np.config.value.imageType.None? ==> Get(NodePoolRow(np), "Image type") == Some(Str(NOT_AVAILABLE))
    ensures np.config.value.diskType.None? ==> Get(NodePoolRow(np), "Boot disk type") == Some(Str(NOT_AVAILABLE))
  {
    ShownAsIs(NOT_AVAILABLE);
    ConfigGet(np, 0);
    ConfigGet(np, 1);
    ConfigGet(np, 2);
  }

  lemma ConfigGet(np: NodePool, i: nat)
    requires np.config.Some? && i < 6
    ensures Get(NodePoolRow(np), ConfigEntries(np.config.value, TaintsText(np.config.value.taints))[i].0)
         == Some(ConfigEntries(np.config.value, TaintsText(np.config.value.taints))[i].1)
  {
    var d := NodePoolRow(np);
    NodePoolRowShape(np);
    assert d[5 + i] == ConfigEntries(np.config.value, TaintsText(np.config.value.taints))[i];
    GetAt(d, 5 + i);
  }

  /**
   * `get_node_pool_details`: the node-pool dict when the node pool exists, an
   * empty dict when the API answers NotFound, and any other error raised.
   */
  function NodePoolPart(api: Api, projectId: string, location: string, clusterName: string, nodePoolName: string): (r: Result<Details, string>)
    ensures r.Failure? <==> api.getNodePool(NodePoolFullName(projectId, location, clusterName, nodePoolName)).Failed?
    ensures r == Success([]) <==> api.getNodePool(NodePoolFullName(projectId, location, clusterName, nodePoolName)).NotFound?
    ensures api.getNodePool(NodePoolFullName(projectId, location, clusterName, nodePoolName)).Found? ==>
              r == Success(NodePoolRow(api.getNodePool(NodePoolFullName(projectId, location, clusterName, nodePoolName)).record))
  {
    match api.getNodePool(NodePoolFullName(projectId, location, clusterName, nodePoolName))
    case Found(np) =>
      NodePoolRowShape(np);
      Success(NodePoolRow(np))
    case NotFound => Success([])
    case Failed(e) => Failure(e)
  }

  method GetNodePoolDetails(api: Api, projectId: string, location: string, clusterName: string, nodePoolName: string)
    returns (r: Result<Details, string>)
    ensures r == NodePoolPart(api, projectId, location, clusterName, nodePoolName)
  {
    var fullName := NodePoolFullName(projectId, location, clusterName, nodePoolName);
    match api.getNodePool(fullName)
    case Found(np) =>
      var details := NodePoolDetails(np);
      r := Success(details);
    case NotFound =>
      r := Success([]);
    case Failed(e) =>
      r := Failure(e);
  }

  // ---------------------------------------------------------------------------
  // Worked examples

  /** Three instance groups read as "3 total (1 per zone)", however many zones the pool spans. */
  lemma NodeCountExample(np: NodePool)
    requires np.instanceGroupUrls == Some(["a", "b", "c"])
    ensures NodeCount(np) == "3 total (1 per zone)"
  {
    assert IntText(3) == "3";
  }

  /** Two taints read as "env=prod, gpu=true"; their effects are not shown. */
  lemma TaintsExample(effect1: string, effect2: string)
    ensures TaintsText(Some([Taint("env", "prod", effect1), Taint("gpu", "true", effect2)])) == "env=prod, gpu=true"
  {
    var ts := [Taint("env", "prod", effect1), Taint("gpu", "true", effect2)];
    var pairs := TaintPairs(ts);
    assert pairs == [KeyValue(ts[0]), KeyValue(ts[1])];
    assert pairs[1..] == [pairs[1]];
    assert Join(pairs, ", ") == pairs[0] + ", " + pairs[1];
    assert KeyValue(ts[0]) + ", " + KeyValue(ts[1]) == "env=prod, gpu=true";
  }
}
