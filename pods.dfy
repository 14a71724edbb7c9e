/** The pod list of a replica set: `PodsModel.load`. */
module Pods {
  import opened Wrappers
  import opened OrderedSets
  import opened KubeModel
  import opened Profiles
  import opened OwnerFilter

  /** A pod's metadata, as the filter reads it. */
  function PodMetadata(p: Pod): Option<ObjectMeta> {
    p.metadata
  }

  class PodsModel {
    /** The `pods` OrderedSet. */
    var pods: seq<Pod>

    ghost predicate Valid()
      reads this
    {
      NoDup(pods)
    }

    constructor ()
      ensures Valid() && pods == []
    {
      pods := [];
    }

    /**
     * `load(client:namespace:controllerName:)`. `listed` is the result of
     * listing the pods of `namespace`, `None` when the call threw, which
     * leaves `pods` as it was. The pods that pass the owner filter are
     * appended in list order after the existing ones; their namespaces are
     * not looked at.
     */
    method Load(client: ContextClient, pem: PemDecoder, listed: Option<seq<Pod>>,
                namespace: string := DefaultNamespace, controllerName: string := "")
      requires Valid()
      requires client.context.LoadDecodes(pem)
      modifies this`pods
      ensures Valid()
      ensures !client.context.CanConnect(pem) || listed.None? ==> pods == old(pods)
      ensures client.context.CanConnect(pem) && listed.Some? ==>
        pods == AppendAll(old(pods), SelectOwned(listed.value, PodMetadata, controllerName))
    {
      if !client.context.CanConnect(pem) {
        return;
      }
      var kClient := client.Client(pem);

      if listed.Some? {
        var list := listed.value;
        var i := 0;
        while i < |list|
          invariant 0 <= i <= |list|
          invariant pods == AppendAll(old(pods), SelectOwned(list[..i], PodMetadata, controllerName))
        {
          var pod := list[i];
          ghost var current := pods;
          if controllerName == "" {
            pods := Append(pods, pod);
            SelectOwnedStep(old(pods), list, PodMetadata, controllerName, i, current, pods);
            i := i + 1;
            continue;
          }
          var ownerReferences := OwnerReferences(pod.metadata);
          ghost var found, at := false, 0;
          var k := 0;
          while k < |ownerReferences|
            invariant 0 <= k <= |ownerReferences|
            invariant pods == current && !found
            invariant forall t :: 0 <= t < k ==> ownerReferences[t].name != controllerName
          {
            if ownerReferences[k].name == controllerName {
              pods := Append(pods, pod);
              found, at := true, k;
              break;
            }
            k := k + 1;
          }
          if found {
            assert at < |ownerReferences| && ownerReferences[at].name == controllerName;
          } else {
            assert k == |ownerReferences|;
          }
          assert found <==> OwnedBy(pod.metadata, controllerName);
          SelectOwnedStep(old(pods), list, PodMetadata, controllerName, i, current, pods);
          i := i + 1;
        }
        assert list[..|list|] == list;
        AppendAllNoDup(old(pods), SelectOwned(list, PodMetadata, controllerName));
      }
    }
  }
}
