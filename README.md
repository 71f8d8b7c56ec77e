# GKE asset inventory, modelled in Dafny

The repository builds an asset list of Google Kubernetes Engine clusters.
For each entry of a project list (project, location, cluster, node pool) it
reads the cluster and the node pool through the Kubernetes Engine API, turns
each record into a dict from fixed display labels to values, merges the two
dicts into one row when both are non-empty, and writes all rows to a CSV
file when there is at least one.

The model covers the two Python files that do this:

- `main.py`: the image-type and disk-type lookup tables, the
  fully-qualified resource names, `get_cluster_details`,
  `get_node_pool_details`, `calculate_total_nodes` and `get_taints`;
- `running.py`: the loop over the project list, the per-target error
  handling, the `{**cluster, **node_pool}` merge and the save-or-notice
  decision.

Files:

- `wrappers.dfy` (module `Wrappers`): `Option` and `Result`.
- `ordered_dict.dfy` (module `OrderedDict`): a Python `dict` as an
  insertion-ordered sequence of entries. It defines `d[k] = v` (`Put`),
  `d.update(e)` (`Update`), `{**a, **b}` (`Merge`) and `d.get(k)` (`Get`).
- `text.dfy` (module `Text`): `str()` of an integer, `sep.join(items)`, and
  `s.split(c)` as the inverse of a join.
- `records.dfy` (module `Records`): the API records as far as the code reads
  them, and the API itself as a value `Api` of two read functions.
  - A sub-record the cluster may lack is an `Option`.
  - A field read with `getattr(..., default)` or tested with `hasattr` is an
    `Option`.
- `details.dfy` (module `GkeDetails`): everything in `main.py`.
- `inventory.dfy` (module `Inventory`): everything in `running.py`.

`get_taints` and `get_node_pool_details` work step by step: a loop that
appends, and a dict updated in place. They are methods, proved equal to the
functions `TaintsText` and `NodePoolRow`. The loop of `running.py` is the
method `CollectDetails`, proved equal to the function `Rows`. The
properties are proved about those functions.

When a node pool has no configuration, `main.py:72-82` adds none of the six
configuration labels. A missing disk size prints as "Not available GB"
(`main.py:79`).

In the table below, each row names the lemma or method whose contract states
a property. The function it is about comes first in the third column.

## Model

| member | source | states |
|---|---|---|
| OrderedDict.PutKeys | main.py:75-82 | `Put` (`d[k] = v`): assigning a key keeps the key order, appending the key only when it is new |
| OrderedDict.PutGet | main.py:75-82 | `Put`: after assigning `k`, `k` holds the new value and every other key keeps its old one |
| OrderedDict.UpdateGet | main.py:75-82 | `Update` (`d.update(e)`): a key of `e` holds its value from `e`, and any other key keeps its value in `d` |
| OrderedDict.UpdateKeys | main.py:75-82 | `Update`: the keys of `d` stay in order, and the keys of `e` that `d` lacks are appended in their order in `e` |
| OrderedDict.UpdateDisjoint | main.py:75-82 | `Update`: updating with entries whose keys are all new appends those entries |
| OrderedDict.MergeSpec | running.py:29 | `Merge` (`{**a, **b}`): holds the keys of `a`, then the new keys of `b`, each once; the value from `b` wins on a shared key |
| OrderedDict.MergeDisjoint | running.py:29 | `Merge`: with no shared key, the merge is `a` followed by `b`, its size is the sum, and keys stay unique |
| Text.IntTextRoundTrip | main.py:79-91 | `IntText` (`str()` of an integer in an f-string): the text reads back as that integer |
| Text.JoinConcat | main.py:103 | `Join` (`sep.join`): joining two non-empty lists is joining each, with the separator between them |
| Text.JoinItemAt | main.py:103 | `Join`: the joined text holds each item at its offset |
| Text.JoinSepAfter | main.py:103 | `Join`: every item but the last is followed by the separator |
| Text.JoinLength | main.py:103 | `Join`: the joined text ends right after its last item |
| Text.SplitJoin | main.py:89-91 | `Join` over one blank, as in the node-count and disk-size texts: splitting on that character gives back the items when no item holds it |
| GkeDetails.Lookup | main.py:76-78 | `table.get(token, token)`: a known token gives its display label, and an unknown token is shown as is |
| GkeDetails.ShownAsIs | main.py:7-24 | `Lookup` on the two tables: a value is shown unchanged exactly when the table does not know it; "Not available" passes through both |
| GkeDetails.ClusterNameSegments | main.py:28 | `ClusterFullName`: the name splits on `/` into `projects`, the project, `locations`, the location, `clusters` and the cluster |
| GkeDetails.NodePoolNameExtendsCluster | main.py:54 | `NodePoolFullName`: for any components, the name is the cluster name followed by `/nodePools/` and the pool |
| GkeDetails.NodePoolNameSegments | main.py:54 | `NodePoolFullName`: the name splits on `/` into the eight segments |
| GkeDetails.ClusterLabelsDistinct | main.py:36-48 | the eleven cluster labels are distinct |
| GkeDetails.LabelsDisjoint | main.py:36-48 | no node-pool label and no configuration label is a cluster label |
| GkeDetails.ClusterDetailsShape | main.py:36-48 | `ClusterDetails`: the dict holds exactly the cluster labels, in the source's order, each once |
| GkeDetails.ClusterFields | main.py:36-48 | `ClusterDetails`: name, version, network, subnet and resource labels pass through as read |
| GkeDetails.ClusterDefaultedFields | main.py:39-47 | `ClusterDetails`: each field read with a default shows its value when present, and "Not available" when the field or its sub-record is missing |
| GkeDetails.ClusterVpaField | main.py:46 | `ClusterDetails`: vertical pod autoscaling reads "enabled" exactly when it is on, "disabled" otherwise; no label outside the cluster labels is present |
| GkeDetails.GetClusterDetails | main.py:26-50 | the read fails exactly when the API raises something other than NotFound; NotFound gives the empty dict; a found cluster gives `ClusterDetails` of that cluster, with the cluster labels each once |
| GkeDetails.NodeCountReadsBack | main.py:86-92 | `NodeCount`: reads back as the number of instance groups, else as the initial node count; with neither it is "Not available"; the per-zone figure is always the constant 1 |
| GkeDetails.NodeCountExample | main.py:87-89 | `NodeCount`: three instance groups are reported as "3 total (1 per zone)" |
| GkeDetails.BootDiskSizeReadsBack | main.py:79 | `BootDiskSize`: the size followed by "GB", or "Not available GB"; reads back as the size |
| GkeDetails.FormatTaints | main.py:94-103 | the loop of `get_taints` yields `TaintsText`: "Not available" for no taints, else every taint's `key=value` joined by ", " |
| GkeDetails.TaintsLayout | main.py:98-103 | `TaintsText`: taint `i` appears as `key=value` at its offset, consecutive taints are separated by ", ", and the text ends after the last taint |
| GkeDetails.TaintsNotAvailableIff | main.py:95-96 | `TaintsText`: "Not available" exactly when there are no taints |
| GkeDetails.TaintsExample | main.py:98-103 | `TaintsText`: two taints are shown as "env=prod, gpu=true", without their effects |
| GkeDetails.NodePoolLabelsDistinct | main.py:63-82 | the base labels and the configuration labels are each distinct and do not overlap |
| GkeDetails.NodePoolRowShape | main.py:63-82 | `NodePoolRow`: the five base labels, then the six configuration labels exactly when there is a configuration, each once |
| GkeDetails.NodePoolDetails | main.py:62-84 | building the base dict and updating it in place with the configuration entries yields `NodePoolRow` |
| GkeDetails.NodePoolBaseFields | main.py:63-69 | `NodePoolRow`: name, version, node count and zones pass through; autoscaling reads "On" exactly when it is on, "Off" otherwise |
| GkeDetails.NodePoolConfigFields | main.py:72-82 | `NodePoolRow`: the configuration labels are present exactly when the configuration is; taints and disk size are the formatted texts; metadata passes through, or reads "Not available" |
| GkeDetails.NodePoolConfigTypes | main.py:73-78 | `NodePoolRow`: the image and disk types are translated through their tables and the machine type passes through; a missing one reads "Not available" |
| GkeDetails.NodePoolPart | main.py:52-60 | the read fails exactly when the API raises something other than NotFound; NotFound gives the empty dict; a found node pool gives `NodePoolRow` of it |
| GkeDetails.GetNodePoolDetails | main.py:52-84 | the method's result is the node-pool dict, the empty dict or the error, as `NodePoolPart` states |
| Inventory.ProcessCases | running.py:23-35 | `Process` (one pass of the loop): a row exactly when both the cluster and the node pool are found; an error exactly when either read raises |
| Inventory.ProcessFound | running.py:24-30 | `Process`: when both records are found, the row is the merge of `ClusterDetails` and `NodePoolRow` |
| Inventory.RowShape | running.py:29 | the merged row is the cluster dict followed by the node-pool dict, with 16 or 22 distinct labels |
| Inventory.CollectDetails | running.py:14-35 | the loop collects exactly `Rows` of the targets, in order |
| Inventory.RowsAppend | running.py:17-30 | `Rows`: collecting over two lists of targets is collecting over the first, then the second |
| Inventory.RowsBound | running.py:17-30 | `Rows`: at most one row per target |
| Inventory.RowsNonEmptyIff | running.py:28-38 | `Rows`: some row is collected exactly when some target yields one |
| Inventory.Save | running.py:38-46 | a CSV is written exactly when some row was collected, and it holds every row |
| Inventory.Run | running.py:13-46 | a CSV is written exactly when some target yields a row |

## Left out

- Building the API client and the network calls are left out. The API is a value passed in: two total functions from resource name to found, not found or failed. Nothing is retried, and no time passes.
- Protocol-buffer field presence is not modelled. `hasattr` and `getattr` defaults are modelled as the code reads them: a missing attribute is `None`.
- A direct attribute read that would raise `AttributeError` (for example `node_pool.config.taints`) is modelled as an attribute that is present. Its error falls under a failed read, which the per-target handler also catches.
- Loading the project list from a JSON file (`running.py:6-13`) is left out. The list is a parameter.
- The pandas DataFrame and the CSV writing are reduced to the list of rows that would be written. The output path and the column layout are left out.
- Console messages (`print`) are left out.
- The `kubernetes` import at the end of `main.py` is left out. It plays no part in the computation.
- Resource labels and instance metadata are passed through as plain string maps. Node zones are passed through as a list.
- `is False` differs from Python truthiness only for values that are not `bool`. The model takes the autoscaling flags as booleans.
