/**
 * The namespaces screen: `NamespacesModel.load`, which lists namespaces and
 * then resource quotas, and the used/hard map `ResourceQuotaView` builds.
 */
module Namespaces {
  import opened Wrappers
  import opened OrderedSets
  import opened Dictionaries
  import opened KubeModel
  import opened Profiles

  /**
   * The assignments `quotas[ns] = quota.status` the quota loop performs, in
   * list order; a quota without a namespace makes none.
   */
  function QuotaWrites(quotas: seq<ResourceQuota>): (ws: seq<Write<string, ResourceQuotaStatus>>)
    ensures |ws| <= |quotas|
    decreases |quotas|
  {
    if quotas == [] then []
    else
      var prev := QuotaWrites(quotas[..|quotas| - 1]);
      var q := quotas[|quotas| - 1];
      match NamespaceOf(q.metadata)
      case None => prev
      case Some(ns) => prev + [Write(ns, q.status)]
  }

  /** The quota map after the quota loop has run over `quotas`, starting from `m`. */
  function ApplyQuotas(m: map<string, ResourceQuotaStatus>, quotas: seq<ResourceQuota>): map<string, ResourceQuotaStatus> {
    StoreAll(m, QuotaWrites(quotas))
  }

  /** `quotas[i]` is the last quota of the list that belongs to namespace `ns`. */
  ghost predicate LastQuotaFor(quotas: seq<ResourceQuota>, ns: string, i: int) {
    && 0 <= i < |quotas|
    && NamespaceOf(quotas[i].metadata) == Some(ns)
    && forall j :: i < j < |quotas| ==> NamespaceOf(quotas[j].metadata) != Some(ns)
  }

  /** The last assignment to `ns` comes from the last quota of that namespace. */
  lemma {:induction false} QuotaWritesLast(quotas: seq<ResourceQuota>, ns: string)
    ensures (forall i :: 0 <= i < |quotas| ==> NamespaceOf(quotas[i].metadata) != Some(ns)) ==>
      LastWrite(QuotaWrites(quotas), ns).None?
    ensures forall i :: LastQuotaFor(quotas, ns, i) ==> LastWrite(QuotaWrites(quotas), ns) == Some(quotas[i].status)
    decreases |quotas|
  {
    if quotas != [] {
      var prefix := quotas[..|quotas| - 1];
      var q := quotas[|quotas| - 1];
      QuotaWritesLast(prefix, ns);
      var prev := QuotaWrites(prefix);
      match NamespaceOf(q.metadata)
      case None =>
        assert QuotaWrites(quotas) == prev;
        forall i | LastQuotaFor(quotas, ns, i)
          ensures LastWrite(QuotaWrites(quotas), ns) == Some(quotas[i].status)
        {
          assert LastQuotaFor(prefix, ns, i);
        }
      case Some(k) =>
        var ws := prev + [Write(k, q.status)];
        assert QuotaWrites(quotas) == ws;
        assert ws[..|ws| - 1] == prev;
        if k != ns {
          forall i | LastQuotaFor(quotas, ns, i)
            ensures LastWrite(QuotaWrites(quotas), ns) == Some(quotas[i].status)
          {
            assert LastQuotaFor(prefix, ns, i);
          }
        }
    }
  }

  /**
   * The quota map, namespace by namespace: a namespace no listed quota names
   * keeps its old entry, and otherwise its last quota decides. A nil status
   * removes the entry (subscript assignment of nil); a quota without a
   * namespace touches no entry at all.
   */
  lemma ApplyQuotasAt(m: map<string, ResourceQuotaStatus>, quotas: seq<ResourceQuota>, ns: string)
    ensures (forall i :: 0 <= i < |quotas| ==> NamespaceOf(quotas[i].metadata) != Some(ns)) ==>
      SameAt(m, ApplyQuotas(m, quotas), ns)
    ensures forall i :: LastQuotaFor(quotas, ns, i) ==>
      && (ns in ApplyQuotas(m, quotas) <==> quotas[i].status.Some?)
      && (quotas[i].status.Some? ==> ApplyQuotas(m, quotas)[ns] == quotas[i].status.value)
  {
    QuotaWritesLast(quotas, ns);
    StoreAllAt(m, QuotaWrites(quotas), ns);
  }

  /** Every namespace in the quota map was there before or is named by a listed quota. */
  lemma ApplyQuotasKeys(m: map<string, ResourceQuotaStatus>, quotas: seq<ResourceQuota>, ns: string)
    requires ns in ApplyQuotas(m, quotas)
    ensures ns in m || exists i :: 0 <= i < |quotas| && NamespaceOf(quotas[i].metadata) == Some(ns)
  {
    ApplyQuotasAt(m, quotas, ns);
  }

  /**
   * The namespace set compares whole values: a second load that lists the
   * same namespace (same uid) at a new `resourceVersion` keeps both
   * versions, the old one first.
   */
  lemma ReloadKeepsChangedVersion(first: Namespace, second: Namespace)
    requires first.metadata.Some? && second.metadata.Some?
    requires second.metadata.value.uid == first.metadata.value.uid
    requires second.metadata.value.resourceVersion != first.metadata.value.resourceVersion
    ensures AppendAll(AppendAll([], [first]), [second]) == [first, second]
  {
    assert second != first by {
      assert second.metadata.value.resourceVersion != first.metadata.value.resourceVersion;
    }
    var once: seq<Namespace> := [first];
    assert [first][..0] == [];
    assert AppendAll([], [first]) == Append([], first) == once;
    assert [second][..0] == [];
    assert AppendAll(once, [second]) == Append(once, second);
    assert second !in once;
  }

  class NamespacesModel {
    /** The `namespaces` OrderedSet. */
    var namespaces: seq<Namespace>
    /** Quota status per namespace name. */
    var quotas: map<string, ResourceQuotaStatus>

    ghost predicate Valid()
      reads this
    {
      NoDup(namespaces)
    }

    constructor ()
      ensures Valid() && namespaces == [] && quotas == map[]
    {
      namespaces := [];
      quotas := map[];
    }

    /**
     * `load(client:)`. `listedNamespaces` and `listedQuotas` are the results
     * of the two list calls, `None` when the call threw (and was logged).
     * Without a usable profile nothing changes. Otherwise the two phases are
     * independent: the namespaces are appended to the existing set, never
     * cleared, and the quotas are assigned into the existing map.
     */
    method Load(client: ContextClient, pem: PemDecoder,
                listedNamespaces: Option<seq<Namespace>>, listedQuotas: Option<seq<ResourceQuota>>)
      requires Valid()
      requires client.context.LoadDecodes(pem)
      modifies this
      ensures Valid()
      ensures !client.context.CanConnect(pem) ==> namespaces == old(namespaces) && quotas == old(quotas)
      ensures client.context.CanConnect(pem) ==>
        && namespaces == (if listedNamespaces.Some? then AppendAll(old(namespaces), listedNamespaces.value)
                          else old(namespaces))
        && quotas == (if listedQuotas.Some? then ApplyQuotas(old(quotas), listedQuotas.value) else old(quotas))
    {
      if !client.context.CanConnect(pem) {
        return;
      }
      var kClient := client.Client(pem);

      if listedNamespaces.Some? {
        AppendAllNoDup(namespaces, listedNamespaces.value);
        namespaces := AppendAll(namespaces, listedNamespaces.value);
      }

      if listedQuotas.Some? {
        var list := listedQuotas.value;
        ghost var listed := namespaces;
        var i := 0;
        while i < |list|
          invariant 0 <= i <= |list|
          invariant namespaces == listed
          invariant quotas == ApplyQuotas(old(quotas), list[..i])
        {
          var quota := list[i];
          assert list[..i + 1][..i] == list[..i];
          ghost var ws := QuotaWrites(list[..i]);
          var ns := NamespaceOf(quota.metadata);
          if ns.None? {
            i := i + 1;
            continue;
          }
          assert QuotaWrites(list[..i + 1]) == ws + [Write(ns.value, quota.status)];
          assert (ws + [Write(ns.value, quota.status)])[..|ws|] == ws;
          quotas := Store(quotas, ns.value, quota.status);
          i := i + 1;
        }
        assert list[..|list|] == list;
      }
    }
  }

  /** `quotaStatus.hard?[resource] ?? Quantity(integerLiteral: 0)`. */
  function HardOrZero(status: ResourceQuotaStatus, resource: string): Quantity {
    if status.hard.Some? && resource in status.hard.value then status.hard.value[resource] else ZeroQuantity
  }

  /**
   * `ResourceQuotaView.onAppear`: for every resource in `used`, store the
   * pair (used, hard or 0) into the view's map. Entries for resources not in
   * `used` are left as they were.
   */
  method UsedTotalMap(status: ResourceQuotaStatus, current: map<string, (Quantity, Quantity)>)
    returns (m: map<string, (Quantity, Quantity)>)
    ensures m.Keys == current.Keys + status.used.GetOr(map[]).Keys
    ensures forall r :: r in status.used.GetOr(map[]) ==> m[r] == (status.used.GetOr(map[])[r], HardOrZero(status, r))
    ensures forall r :: r in current && r !in status.used.GetOr(map[]) ==> m[r] == current[r]
  {
    var used := status.used.GetOr(map[]);
    m := current;
    var todo := used.Keys;
    while todo != {}
      invariant todo <= used.Keys
      invariant m.Keys == current.Keys + (used.Keys - todo)
      invariant forall r :: r in used && r !in todo ==> m[r] == (used[r], HardOrZero(status, r))
      invariant forall r :: r in current && r !in used.Keys - todo ==> m[r] == current[r]
      decreases todo
    {
      var resource :| resource in todo;
      m := m[resource := (used[resource], HardOrZero(status, resource))];
      todo := todo - {resource};
    }
  }
}
