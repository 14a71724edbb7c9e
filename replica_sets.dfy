/**
 * The replica-set list of a deployment: `ReplicaSetsModel.load` and the
 * health test of the list icon.
 */
module ReplicaSets {
  import opened Wrappers
  import opened OrderedSets
  import opened KubeModel
  import opened Profiles
  import opened OwnerFilter
  import Deployments

  /** A replica set's metadata, as the filter reads it. */
  function ReplicaSetMetadata(rs: ReplicaSet): Option<ObjectMeta> {
    rs.metadata
  }

  class ReplicaSetsModel {
    /** The `replicaSets` OrderedSet. */
    var replicaSets: seq<ReplicaSet>
    /** Pods per replica set; declared by the model but never filled by `load`. */
    var replicasetPodMap: map<string, seq<Pod>>

    ghost predicate Valid()
      reads this
    {
      NoDup(replicaSets)
    }

    constructor ()
      ensures Valid() && replicaSets == [] && replicasetPodMap == map[]
    {
      replicaSets := [];
      replicasetPodMap := map[];
    }

    /**
     * `load(client:namespace:controllerName:)`. `listed` is the result of
     * listing the replica sets of `namespace`, `None` when the call threw.
     * The replica sets that pass the owner filter are appended in list order
     * after the existing ones; nothing is cleared, and `replicasetPodMap` is
     * left alone.
     */
    method Load(client: ContextClient, pem: PemDecoder, listed: Option<seq<ReplicaSet>>,
                namespace: string := DefaultNamespace, controllerName: string := "")
      requires Valid()
      requires client.context.LoadDecodes(pem)
      modifies this`replicaSets
      ensures Valid()
      ensures replicasetPodMap == old(replicasetPodMap)
      ensures !client.context.CanConnect(pem) || listed.None? ==> replicaSets == old(replicaSets)
      ensures client.context.CanConnect(pem) && listed.Some? ==>
        replicaSets == AppendAll(old(replicaSets), SelectOwned(listed.value, ReplicaSetMetadata, controllerName))
    {
      if !client.context.CanConnect(pem) {
        return;
      }
      var kClient := client.Client(pem);

      if listed.Some? {
        var list := listed.value;
        var i := 0;
        while i < |list|
          invariant 0 <= i <= |list|
          invariant replicaSets == AppendAll(old(replicaSets), SelectOwned(list[..i], ReplicaSetMetadata, controllerName))
        {
          var replicaset := list[i];
          ghost var current := replicaSets;
          if controllerName == "" {
            replicaSets := Append(replicaSets, replicaset);
            SelectOwnedStep(old(replicaSets), list, ReplicaSetMetadata, controllerName, i, current, replicaSets);
            i := i + 1;
            continue;
          }
          var ownerReferences := OwnerReferences(replicaset.metadata);
          ghost var found, at := false, 0;
          var k := 0;
          while k < |ownerReferences|
            invariant 0 <= k <= |ownerReferences|
            invariant replicaSets == current && !found
            invariant forall t :: 0 <= t < k ==> ownerReferences[t].name != controllerName
          {
            if ownerReferences[k].name == controllerName {
              replicaSets := Append(replicaSets, replicaset);
              found, at := true, k;
              break;
            }
            k := k + 1;
          }
          if found {
            assert at < |ownerReferences| && ownerReferences[at].name == controllerName;
          } else {
            assert k == |ownerReferences|;
          }
          assert found <==> OwnedBy(replicaset.metadata, controllerName);
          SelectOwnedStep(old(replicaSets), list, ReplicaSetMetadata, controllerName, i, current, replicaSets);
          i := i + 1;
        }
        assert list[..|list|] == list;
        AppendAllNoDup(old(replicaSets), SelectOwned(list, ReplicaSetMetadata, controllerName));
      }
    }
  }

  /**
   * The list icon's test: available replicas (0 if unknown) equal desired
   * replicas (0 if unknown). Without a status the icon is green; a missing
   * count is compared as 0 against the other one.
   */
  predicate Healthy(rs: ReplicaSet): (r: bool)
    ensures rs.status.None? ==> r
    ensures rs.status.Some? && rs.status.value.availableReplicas.Some? && rs.status.value.replicas.Some? ==>
      (r <==> rs.status.value.availableReplicas.value == rs.status.value.replicas.value)
    ensures rs.status.Some? && rs.status.value.availableReplicas.None? ==> (r <==> rs.status.value.replicas.GetOr(0) == 0)
    ensures rs.status.Some? && rs.status.value.replicas.None? ==> (r <==> rs.status.value.availableReplicas.GetOr(0) == 0)
  {
    AvailableReplicas(rs.status) == DesiredReplicas(rs.status)
  }

  /**
   * A polarity check between the two icons: the replica-set test asks for
   * equality where the deployment test flags inequality, over the same
   * defaulted counts, so on equal status one is the negation of the other.
   */
  lemma HealthyMatchesDeployments(rs: ReplicaSet, d: Deployment)
    requires d.status == rs.status
    ensures Healthy(rs) <==> !Deployments.Unhealthy(d)
    ensures rs.status.None? ==> Healthy(rs)
  {
  }
}
