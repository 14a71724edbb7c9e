/**
 * The deployments screen: `DeploymentsModel.load`, which buckets the listed
 * deployments by their own namespace, and the health test of the list icon.
 */
module Deployments {
  import opened Wrappers
  import opened OrderedSets
  import opened Dictionaries
  import opened KubeModel
  import opened Profiles

  /** `deployment.metadata?.namespace ?? ""`: the bucket a deployment belongs to, "" for none. */
  function DeploymentNamespace(d: Deployment): string {
    NamespaceOf(d.metadata).GetOr("")
  }

  /** One iteration of the load loop: skip a deployment without a namespace, else append it to its bucket. */
  function AddDeployment(m: map<string, seq<Deployment>>, d: Deployment): map<string, seq<Deployment>> {
    var ns := DeploymentNamespace(d);
    if ns == "" then m else AppendAt(m, ns, d)
  }

  /** The whole load loop over `deployments`, in list order. */
  function AddDeployments(m: map<string, seq<Deployment>>, deployments: seq<Deployment>): map<string, seq<Deployment>>
    decreases |deployments|
  {
    if deployments == [] then m
    else AddDeployment(AddDeployments(m, deployments[..|deployments| - 1]), deployments[|deployments| - 1])
  }

  /** The deployments of the list whose own namespace is `ns`, in list order. */
  function DeploymentsIn(deployments: seq<Deployment>, ns: string): (r: seq<Deployment>)
    ensures forall d :: d in r <==> d in deployments && DeploymentNamespace(d) == ns
    ensures |r| <= |deployments|
    decreases |deployments|
  {
    if deployments == [] then []
    else
      var d := deployments[|deployments| - 1];
      var prev := DeploymentsIn(deployments[..|deployments| - 1], ns);
      assert deployments == deployments[..|deployments| - 1] + [d];
      if DeploymentNamespace(d) == ns then prev + [d] else prev
  }

  /**
   * `deploymentCounter`: how many listed deployments are kept. Together with
   * the deployments without a namespace, which are dropped, they make up the
   * whole list.
   */
  function KeptCount(deployments: seq<Deployment>): (n: nat)
    ensures n + |DeploymentsIn(deployments, "")| == |deployments|
    decreases |deployments|
  {
    if deployments == [] then 0
    else
      var prev := KeptCount(deployments[..|deployments| - 1]);
      if DeploymentNamespace(deployments[|deployments| - 1]) == "" then prev else prev + 1
  }

  /**
   * The buckets after a load, namespace by namespace: the bucket of a
   * non-empty namespace gains the listed deployments of that namespace in
   * list order, without duplicates, and is created only if one exists; no
   * deployment ever lands in the "" bucket, and a namespace no deployment
   * names keeps its entry.
   */
  lemma {:induction false} AddDeploymentsAt(m: map<string, seq<Deployment>>, deployments: seq<Deployment>, ns: string)
    ensures ns != "" ==>
      && Bucket(AddDeployments(m, deployments), ns) == AppendAll(Bucket(m, ns), DeploymentsIn(deployments, ns))
      && (ns in AddDeployments(m, deployments) <==> ns in m || DeploymentsIn(deployments, ns) != [])
    ensures ns == "" || DeploymentsIn(deployments, ns) == [] ==> SameAt(m, AddDeployments(m, deployments), ns)
    decreases |deployments|
  {
    if deployments != [] {
      var prefix := deployments[..|deployments| - 1];
      var d := deployments[|deployments| - 1];
      var mid := AddDeployments(m, prefix);
      AddDeploymentsAt(m, prefix, ns);
      var before := DeploymentsIn(prefix, ns);
      if DeploymentNamespace(d) == ns && ns != "" {
        assert DeploymentsIn(deployments, ns) == before + [d];
        assert (before + [d])[..|before|] == before;
        assert AppendAll(Bucket(m, ns), before + [d]) == Append(AppendAll(Bucket(m, ns), before), d);
        assert AddDeployments(m, deployments) == AppendAt(mid, ns, d);
      } else if DeploymentNamespace(d) != ns {
        assert DeploymentsIn(deployments, ns) == before;
        assert SameAt(mid, AddDeployments(m, deployments), ns);
      } else {
        assert AddDeployments(m, deployments) == mid;
      }
    }
  }

  /** Every bucket stays duplicate-free. */
  lemma AddDeploymentsNoDup(m: map<string, seq<Deployment>>, deployments: seq<Deployment>)
    requires forall ns :: ns in m ==> NoDup(m[ns])
    ensures forall ns :: ns in AddDeployments(m, deployments) ==> NoDup(AddDeployments(m, deployments)[ns])
  {
    forall ns | ns in AddDeployments(m, deployments)
      ensures NoDup(AddDeployments(m, deployments)[ns])
    {
      AddDeploymentsAt(m, deployments, ns);
      if ns != "" {
        AppendAllNoDup(Bucket(m, ns), DeploymentsIn(deployments, ns));
      }
    }
  }

  /**
   * Loading the same listing twice leaves the buckets as one load does: the
   * OrderedSets compare whole values, so an unchanged deployment is not
   * appended again.
   */
  lemma AddDeploymentsIdempotent(m: map<string, seq<Deployment>>, deployments: seq<Deployment>)
    ensures AddDeployments(AddDeployments(m, deployments), deployments) == AddDeployments(m, deployments)
  {
    var once := AddDeployments(m, deployments);
    var twice := AddDeployments(once, deployments);
    forall ns ensures (ns in once <==> ns in twice) && (ns in once ==> once[ns] == twice[ns]) {
      AddDeploymentsAt(m, deployments, ns);
      AddDeploymentsAt(once, deployments, ns);
      if ns != "" {
        AppendAllIdempotent(Bucket(m, ns), DeploymentsIn(deployments, ns));
      }
    }
    assert once.Keys == twice.Keys;
  }

  /** One more iteration of the load loop. */
  lemma AddDeploymentsStep(m: map<string, seq<Deployment>>, deployments: seq<Deployment>, i: nat)
    requires i < |deployments|
    ensures AddDeployments(m, deployments[..i + 1]) == AddDeployment(AddDeployments(m, deployments[..i]), deployments[i])
    ensures KeptCount(deployments[..i + 1]) ==
      KeptCount(deployments[..i]) + if DeploymentNamespace(deployments[i]) == "" then 0 else 1
  {
    assert deployments[..i + 1][..i] == deployments[..i];
  }

  class DeploymentsModel {
    /** The deployments of each namespace, each an OrderedSet. */
    var namespaceDeploymentMap: map<string, seq<Deployment>>

    ghost predicate Valid()
      reads this
    {
      forall ns :: ns in namespaceDeploymentMap ==> NoDup(namespaceDeploymentMap[ns])
    }

    constructor ()
      ensures Valid() && namespaceDeploymentMap == map[]
    {
      namespaceDeploymentMap := map[];
    }

    /**
     * `load(client:namespace:)`. `listed` is the result of listing the
     * deployments of `namespace`, `None` when the call threw. Each kept
     * deployment goes into the bucket of its own namespace, whatever
     * `namespace` was; buckets are never cleared. `counter` is the count the
     * source logs, `None` when nothing was listed.
     */
    method Load(client: ContextClient, pem: PemDecoder, listed: Option<seq<Deployment>>,
                namespace: string := DefaultNamespace)
      returns (counter: Option<nat>)
      requires Valid()
      requires client.context.LoadDecodes(pem)
      modifies this
      ensures Valid()
      ensures !client.context.CanConnect(pem) || listed.None? ==>
        namespaceDeploymentMap == old(namespaceDeploymentMap) && counter.None?
      ensures client.context.CanConnect(pem) && listed.Some? ==>
        && namespaceDeploymentMap == AddDeployments(old(namespaceDeploymentMap), listed.value)
        && counter == Some(KeptCount(listed.value))
    {
      counter := None;
      if !client.context.CanConnect(pem) {
        return;
      }
      var kClient := client.Client(pem);

      if listed.Some? {
        var list := listed.value;
        var deploymentCounter := 0;
        var i := 0;
        while i < |list|
          invariant 0 <= i <= |list|
          invariant namespaceDeploymentMap == AddDeployments(old(namespaceDeploymentMap), list[..i])
          invariant deploymentCounter == KeptCount(list[..i])
        {
          var deployment := list[i];
          AddDeploymentsStep(old(namespaceDeploymentMap), list, i);
          var ns := DeploymentNamespace(deployment);
          if ns == "" {
            i := i + 1;
            continue;
          }
          namespaceDeploymentMap := AppendAt(namespaceDeploymentMap, ns, deployment);
          deploymentCounter := deploymentCounter + 1;
          i := i + 1;
        }
        assert list[..|list|] == list;
        AddDeploymentsNoDup(old(namespaceDeploymentMap), list);
        counter := Some(deploymentCounter);
      }
    }
  }

  /**
   * The list icon's test: available replicas (0 if unknown) differ from
   * desired replicas (0 if unknown). Without a status nothing is flagged; a
   * missing count is compared as 0 against the other one.
   */
  predicate Unhealthy(d: Deployment): (r: bool)
    ensures d.status.None? ==> !r
    ensures d.status.Some? && d.status.value.availableReplicas.Some? && d.status.value.replicas.Some? ==>
      (r <==> d.status.value.availableReplicas.value != d.status.value.replicas.value)
    ensures d.status.Some? && d.status.value.availableReplicas.None? ==> (r <==> d.status.value.replicas.GetOr(0) != 0)
    ensures d.status.Some? && d.status.value.replicas.None? ==> (r <==> d.status.value.availableReplicas.GetOr(0) != 0)
  {
    AvailableReplicas(d.status) != DesiredReplicas(d.status)
  }

  /**
   * A deployment whose status is missing, or reports neither count, is shown
   * healthy; one whose available count is missing while replicas are wanted
   * is shown unhealthy.
   */
  lemma UnhealthyDefaults(d: Deployment)
    ensures d.status.None? ==> !Unhealthy(d)
    ensures d.status.Some? && d.status.value.availableReplicas.None? && d.status.value.replicas.None? ==> !Unhealthy(d)
    ensures (d.status.Some? && d.status.value.availableReplicas.None? && d.status.value.replicas.Some? &&
             d.status.value.replicas.value != 0) ==> Unhealthy(d)
  {
  }
}
