/**
 * The owner filter shared by the replica-set and pod loads: with an empty
 * controller name every resource is kept, otherwise only those with an
 * owner reference of that name.
 */
module OwnerFilter {
  import opened Wrappers
  import opened OrderedSets
  import opened KubeModel

  /** Some owner reference of the resource has the name `controllerName`. */
  predicate OwnedBy(metadata: Option<ObjectMeta>, controllerName: string) {
    exists i :: 0 <= i < |OwnerReferences(metadata)| && OwnerReferences(metadata)[i].name == controllerName
  }

  /** The resource passes the filter of a load called with `controllerName`. */
  predicate Selected(metadata: Option<ObjectMeta>, controllerName: string) {
    controllerName == "" || OwnedBy(metadata, controllerName)
  }

  /** The resources of `xs` that pass the filter, in list order. */
  function SelectOwned<T(!new)>(xs: seq<T>, metadataOf: T -> Option<ObjectMeta>, controllerName: string): (r: seq<T>)
    ensures controllerName == "" ==> r == xs
    ensures |r| <= |xs|
    decreases |xs|
  {
    if xs == [] then []
    else
      var x := xs[|xs| - 1];
      var prev := SelectOwned(xs[..|xs| - 1], metadataOf, controllerName);
      assert xs == xs[..|xs| - 1] + [x];
      if Selected(metadataOf(x), controllerName) then prev + [x] else prev
  }

  /** A resource is selected exactly when it is listed and passes the filter. */
  lemma {:induction false} SelectOwnedMembers<T(!new)>(xs: seq<T>, metadataOf: T -> Option<ObjectMeta>, controllerName: string)
    ensures forall x :: x in SelectOwned(xs, metadataOf, controllerName) <==> x in xs && Selected(metadataOf(x), controllerName)
    decreases |xs|
  {
    if xs != [] {
      var prefix := xs[..|xs| - 1];
      SelectOwnedMembers(prefix, metadataOf, controllerName);
      assert xs == prefix + [xs[|xs| - 1]];
    }
  }

  /**
   * What a load adds, as a whole: afterwards a resource is present exactly
   * when it was before or it is listed and passes the filter; the old
   * contents stay in front, and no resource appears twice.
   */
  lemma LoadedMembers<T(!new)>(before: seq<T>, xs: seq<T>, metadataOf: T -> Option<ObjectMeta>, controllerName: string)
    requires NoDup(before)
    ensures var r := AppendAll(before, SelectOwned(xs, metadataOf, controllerName));
      && NoDup(r) && r[..|before|] == before
      && forall x :: x in r <==> x in before || (x in xs && Selected(metadataOf(x), controllerName))
  {
    AppendAllNoDup(before, SelectOwned(xs, metadataOf, controllerName));
    AppendAllMembers(before, SelectOwned(xs, metadataOf, controllerName));
    SelectOwnedMembers(xs, metadataOf, controllerName);
  }

  /**
   * One more iteration of a load loop: the resource at `i` is appended
   * exactly when it passes the filter.
   */
  lemma SelectOwnedStep<T(!new)>(s: seq<T>, xs: seq<T>, metadataOf: T -> Option<ObjectMeta>, controllerName: string,
                                  i: nat, current: seq<T>, next: seq<T>)
    requires i < |xs|
    requires current == AppendAll(s, SelectOwned(xs[..i], metadataOf, controllerName))
    requires next == if Selected(metadataOf(xs[i]), controllerName) then Append(current, xs[i]) else current
    ensures next == AppendAll(s, SelectOwned(xs[..i + 1], metadataOf, controllerName))
  {
    assert xs[..i + 1][..i] == xs[..i];
    var prev := SelectOwned(xs[..i], metadataOf, controllerName);
    if Selected(metadataOf(xs[i]), controllerName) {
      assert (prev + [xs[i]])[..|prev|] == prev;
    }
  }

  /**
   * The filter looks only at owner references: a resource's namespace, name
   * and uid play no part, so the list call's namespace is the only namespace
   * check there is.
   */
  lemma SelectedIgnoresNamespace(meta: ObjectMeta, controllerName: string, namespace: Option<string>)
    ensures Selected(Some(meta.(namespace := namespace)), controllerName) == Selected(Some(meta), controllerName)
  {
    assert OwnerReferences(Some(meta.(namespace := namespace))) == OwnerReferences(Some(meta));
  }

  /**
   * An example: with owner references named "rs-a" and "rs-b", a filter on
   * "rs-a" keeps the resource and a filter on any other non-empty name drops
   * it.
   */
  lemma SelectedExample(meta: ObjectMeta, a: OwnerReference, b: OwnerReference, other: string)
    requires a.name == "rs-a" && b.name == "rs-b"
    requires meta.ownerReferences == Some([a, b])
    requires other != "" && other != "rs-a" && other != "rs-b"
    ensures Selected(Some(meta), "rs-a")
    ensures !Selected(Some(meta), other)
  {
    assert OwnerReferences(Some(meta))[0].name == "rs-a";
  }
}
