/**
 * The SwiftkubeModel records the view-models read, cut down to the fields
 * they use. As in the library, almost every field is optional.
 */
module KubeModel {
  import opened Wrappers

  /** `meta.v1.OwnerReference`: the owner filter compares only `name`. */
  datatype OwnerReference = OwnerReference(kind: string, name: string, uid: string)

  /** `meta.v1.ObjectMeta`. */
  datatype ObjectMeta = ObjectMeta(
    name: Option<string>,
    namespace: Option<string>,
    uid: Option<string>,
    resourceVersion: Option<string>,
    ownerReferences: Option<seq<OwnerReference>>)

  /**
   * `Quantity`: its text, and what `getValue()` parses from it (nil when the
   * text does not parse). The parser itself is not part of this model.
   */
  datatype Quantity = Quantity(text: string, value: Option<real>)

  /** `Quantity(integerLiteral: 0)`. */
  const ZeroQuantity := Quantity("0", Some(0.0))

  /** `core.v1.Namespace`. */
  datatype Namespace = Namespace(metadata: Option<ObjectMeta>)

  /** `core.v1.ResourceQuotaStatus`: hard limits and current use per resource name. */
  datatype ResourceQuotaStatus = ResourceQuotaStatus(
    hard: Option<map<string, Quantity>>,
    used: Option<map<string, Quantity>>)

  /** `core.v1.ResourceQuota`. */
  datatype ResourceQuota = ResourceQuota(metadata: Option<ObjectMeta>, status: Option<ResourceQuotaStatus>)

  /** `core.v1.NodeCondition`: `type` and `status` are free-form strings. */
  datatype NodeCondition = NodeCondition(conditionType: string, status: string)

  /** `core.v1.NodeStatus`. */
  datatype NodeStatus = NodeStatus(
    capacity: Option<map<string, Quantity>>,
    allocatable: Option<map<string, Quantity>>,
    conditions: Option<seq<NodeCondition>>)

  /** `core.v1.Node`. */
  datatype Node = Node(metadata: Option<ObjectMeta>, status: Option<NodeStatus>)

  /** `core.v1.ObjectReference`: what an event is about. */
  datatype ObjectReference = ObjectReference(kind: Option<string>, name: Option<string>)

  /** `core.v1.Event`: unlike the other kinds its metadata is not optional. */
  datatype Event = Event(
    metadata: ObjectMeta,
    involvedObject: ObjectReference,
    reason: Option<string>,
    eventType: Option<string>)

  /** The replica counts of `apps.v1.DeploymentStatus` and `apps.v1.ReplicaSetStatus`. */
  datatype ReplicaStatus = ReplicaStatus(availableReplicas: Option<int>, replicas: Option<int>)

  /** `apps.v1.Deployment`. */
  datatype Deployment = Deployment(metadata: Option<ObjectMeta>, status: Option<ReplicaStatus>)

  /** `apps.v1.ReplicaSet`. */
  datatype ReplicaSet = ReplicaSet(metadata: Option<ObjectMeta>, status: Option<ReplicaStatus>)

  /** `core.v1.Pod`. */
  datatype Pod = Pod(metadata: Option<ObjectMeta>)

  /** The library's `name` convenience property: `metadata?.name`. */
  function Name(metadata: Option<ObjectMeta>): Option<string> {
    if metadata.Some? then metadata.value.name else None
  }

  /** `metadata?.namespace`. */
  function NamespaceOf(metadata: Option<ObjectMeta>): Option<string> {
    if metadata.Some? then metadata.value.namespace else None
  }

  /** `metadata?.ownerReferences ?? []`. */
  function OwnerReferences(metadata: Option<ObjectMeta>): seq<OwnerReference> {
    if metadata.Some? && metadata.value.ownerReferences.Some? then metadata.value.ownerReferences.value
    else []
  }

  /** `status?.availableReplicas ?? 0`. */
  function AvailableReplicas(status: Option<ReplicaStatus>): int {
    if status.Some? then status.value.availableReplicas.GetOr(0) else 0
  }

  /** `status?.replicas ?? 0`. */
  function DesiredReplicas(status: Option<ReplicaStatus>): int {
    if status.Some? then status.value.replicas.GetOr(0) else 0
  }
}
