/**
 * The nodes screen: `NodeModel.load` (nodes, then the events joined to
 * them), the condition table `desirableState`, the free-resource map of
 * `ResourceView` and the readiness map of `NodeListView`.
 */
module Nodes {
  import opened Wrappers
  import opened OrderedSets
  import opened Dictionaries
  import opened KubeModel
  import opened Profiles

  /** Condition types for which "False" is the good status. */
  const PressureTypes: set<string> := {"MemoryPressure", "DiskPressure", "PIDPressure", "NetworkUnavailable"}

  /**
   * `NodeCondition.desirableState()`: a pressure condition is good when it is
   * "False", Ready is good when it is "True", and any other type counts as good.
   */
  function DesirableState(c: NodeCondition): (r: bool)
    ensures c.conditionType in PressureTypes ==> (r <==> c.status == "False")
    ensures c.conditionType == "Ready" ==> (r <==> c.status == "True")
    ensures c.conditionType !in PressureTypes && c.conditionType != "Ready" ==> r
  {
    match c.conditionType
    case "MemoryPressure" => c.status == "False"
    case "DiskPressure" => c.status == "False"
    case "PIDPressure" => c.status == "False"
    case "NetworkUnavailable" => c.status == "False"
    case "Ready" => c.status == "True"
    case _ => true
  }

  /**
   * The join condition of the event loop: the event is about an object of
   * kind "Node" whose name equals the node's. Both names are optional and
   * compared as optionals, so an unnamed event object matches an unnamed node.
   */
  predicate Involves(e: Event, n: Node): (r: bool)
    ensures e.involvedObject.kind != Some("Node") ==> !r
    ensures e.involvedObject.kind == Some("Node") && e.involvedObject.name.Some? ==>
      (r <==> n.metadata.Some? && n.metadata.value.name == e.involvedObject.name)
    ensures e.involvedObject.kind == Some("Node") && e.involvedObject.name.None? ==>
      (r <==> n.metadata.None? || n.metadata.value.name.None?)
  {
    e.involvedObject.kind == Some("Node") && e.involvedObject.name == Name(n.metadata)
  }

  /** The inner loop for one event: append it to the set of every node it involves. */
  function AttachEvent(m: map<Node, seq<Event>>, nodes: seq<Node>, e: Event): map<Node, seq<Event>>
    decreases |nodes|
  {
    if nodes == [] then m
    else
      var prev := AttachEvent(m, nodes[..|nodes| - 1], e);
      var n := nodes[|nodes| - 1];
      if Involves(e, n) then AppendAt(prev, n, e) else prev
  }

  /** The whole event loop: the events in list order, each joined against every node. */
  function AttachEvents(m: map<Node, seq<Event>>, nodes: seq<Node>, events: seq<Event>): map<Node, seq<Event>>
    decreases |events|
  {
    if events == [] then m
    else AttachEvent(AttachEvents(m, nodes, events[..|events| - 1]), nodes, events[|events| - 1])
  }

  /** The events of `events` that involve `n`, in list order. */
  function EventsFor(events: seq<Event>, n: Node): (r: seq<Event>)
    ensures forall e :: e in r <==> e in events && Involves(e, n)
    decreases |events|
  {
    if events == [] then []
    else
      var prev := EventsFor(events[..|events| - 1], n);
      var e := events[|events| - 1];
      assert forall x :: x in events <==> x in events[..|events| - 1] || x == e by {
        assert events == events[..|events| - 1] + [e];
      }
      if Involves(e, n) then prev + [e] else prev
  }

  /** One event changes only the sets of the listed nodes it involves, by appending itself. */
  lemma {:induction false} AttachEventAt(m: map<Node, seq<Event>>, nodes: seq<Node>, e: Event, n: Node)
    ensures n in nodes && Involves(e, n) ==>
      n in AttachEvent(m, nodes, e) && AttachEvent(m, nodes, e)[n] == Append(Bucket(m, n), e)
    ensures !(n in nodes && Involves(e, n)) ==> SameAt(m, AttachEvent(m, nodes, e), n)
    decreases |nodes|
  {
    if nodes != [] {
      var prefix := nodes[..|nodes| - 1];
      var last := nodes[|nodes| - 1];
      var prev := AttachEvent(m, prefix, e);
      var r := AttachEvent(m, nodes, e);
      AttachEventAt(m, prefix, e, n);
      assert n in nodes <==> n in prefix || n == last by {
        assert nodes == prefix + [last];
      }
      if !Involves(e, last) {
        assert r == prev;
      } else if n != last {
        assert r == AppendAt(prev, last, e);
      } else {
        AttachEventLast(m, prefix, e, n);
      }
    }
  }

  /** The step of `AttachEventAt` where the last node is the one asked about. */
  lemma AttachEventLast(m: map<Node, seq<Event>>, prefix: seq<Node>, e: Event, n: Node)
    requires Involves(e, n)
    requires n in prefix ==> n in AttachEvent(m, prefix, e) && AttachEvent(m, prefix, e)[n] == Append(Bucket(m, n), e)
    requires n !in prefix ==> SameAt(m, AttachEvent(m, prefix, e), n)
    ensures AppendAt(AttachEvent(m, prefix, e), n, e)[n] == Append(Bucket(m, n), e)
  {
    var prev := AttachEvent(m, prefix, e);
    if n in prefix {
      assert e in Bucket(prev, n);
    } else {
      assert Bucket(prev, n) == Bucket(m, n);
    }
  }

  /**
   * The event join, node by node: each listed node's set gains exactly the
   * events that involve it, in list order and without duplicates; the entry
   * of a node that is not listed is untouched, and a listed node that no
   * event involves gets no new entry.
   */
  lemma {:induction false} AttachEventsAt(m: map<Node, seq<Event>>, nodes: seq<Node>, events: seq<Event>, n: Node)
    ensures n in nodes ==>
      && Bucket(AttachEvents(m, nodes, events), n) == AppendAll(Bucket(m, n), EventsFor(events, n))
      && (n in AttachEvents(m, nodes, events) <==> n in m || EventsFor(events, n) != [])
    ensures n !in nodes ==> SameAt(m, AttachEvents(m, nodes, events), n)
    decreases |events|
  {
    if events != [] {
      var prefix := events[..|events| - 1];
      var e := events[|events| - 1];
      var mid := AttachEvents(m, nodes, prefix);
      AttachEventsAt(m, nodes, prefix, n);
      AttachEventAt(mid, nodes, e, n);
    }
  }

  /** One more iteration of the inner event loop. */
  lemma AttachEventStep(m: map<Node, seq<Event>>, nodes: seq<Node>, j: nat, e: Event)
    requires j < |nodes|
    ensures AttachEvent(m, nodes[..j + 1], e) ==
      if Involves(e, nodes[j]) then AppendAt(AttachEvent(m, nodes[..j], e), nodes[j], e)
      else AttachEvent(m, nodes[..j], e)
  {
    assert nodes[..j + 1][..j] == nodes[..j];
  }

  /** One more iteration of the outer event loop. */
  lemma AttachEventsStep(m: map<Node, seq<Event>>, nodes: seq<Node>, events: seq<Event>, i: nat)
    requires i < |events|
    ensures AttachEvents(m, nodes, events[..i + 1]) == AttachEvent(AttachEvents(m, nodes, events[..i]), nodes, events[i])
  {
    assert events[..i + 1][..i] == events[..i];
  }

  /** Every set in the event map stays duplicate-free. */
  lemma AttachEventsNoDup(m: map<Node, seq<Event>>, nodes: seq<Node>, events: seq<Event>)
    requires forall n :: n in m ==> NoDup(m[n])
    ensures forall n :: n in AttachEvents(m, nodes, events) ==> NoDup(AttachEvents(m, nodes, events)[n])
  {
    forall n | n in AttachEvents(m, nodes, events)
      ensures NoDup(AttachEvents(m, nodes, events)[n])
    {
      AttachEventsAt(m, nodes, events, n);
      if n in nodes {
        AppendAllNoDup(Bucket(m, n), EventsFor(events, n));
      }
    }
  }

  /**
   * Joining the same events against the same nodes a second time changes
   * nothing: the event sets compare whole values, so repeats are dropped.
   */
  lemma AttachEventsIdempotent(m: map<Node, seq<Event>>, nodes: seq<Node>, events: seq<Event>)
    ensures AttachEvents(AttachEvents(m, nodes, events), nodes, events) == AttachEvents(m, nodes, events)
  {
    var once := AttachEvents(m, nodes, events);
    var twice := AttachEvents(once, nodes, events);
    forall n ensures (n in once <==> n in twice) && (n in once ==> once[n] == twice[n]) {
      AttachEventsAt(m, nodes, events, n);
      AttachEventsAt(once, nodes, events, n);
      if n in nodes {
        AppendAllIdempotent(Bucket(m, n), EventsFor(events, n));
      }
    }
    assert once.Keys == twice.Keys;
  }

  class NodeModel {
    /** The `nodes` OrderedSet. */
    var nodes: seq<Node>
    /** The events of each node, each an OrderedSet. */
    var events: map<Node, seq<Event>>

    ghost predicate Valid()
      reads this
    {
      NoDup(nodes) && forall n :: n in events ==> NoDup(events[n])
    }

    constructor ()
      ensures Valid() && nodes == [] && events == map[]
    {
      nodes := [];
      events := map[];
    }

    /**
     * `load(client:)`. `listedNodes` and `listedEvents` are the results of
     * the two list calls, `None` when the call threw. An authenticated load
     * empties `nodes` first, so a failed node list leaves it empty; `events`
     * is never cleared, and the events are joined against the nodes just
     * listed.
     */
    method Load(client: ContextClient, pem: PemDecoder,
                listedNodes: Option<seq<Node>>, listedEvents: Option<seq<Event>>)
      requires Valid()
      requires client.context.LoadDecodes(pem)
      modifies this
      ensures Valid()
      ensures !client.context.CanConnect(pem) ==> nodes == old(nodes) && events == old(events)
      ensures client.context.CanConnect(pem) ==>
        && nodes == (if listedNodes.Some? then AppendAll([], listedNodes.value) else [])
        && events == (if listedEvents.Some? then AttachEvents(old(events), nodes, listedEvents.value)
                      else old(events))
    {
      if !client.context.CanConnect(pem) {
        return;
      }
      var kClient := client.Client(pem);
      nodes := [];

      if listedNodes.Some? {
        AppendAllNoDup(nodes, listedNodes.value);
        nodes := AppendAll(nodes, listedNodes.value);
      }

      if listedEvents.Some? {
        var list := listedEvents.value;
        ghost var listed := nodes;
        var i := 0;
        while i < |list|
          invariant 0 <= i <= |list|
          invariant nodes == listed
          invariant events == AttachEvents(old(events), nodes, list[..i])
        {
          var e := list[i];
          AttachEventsStep(old(events), nodes, list, i);
          var j := 0;
          while j < |nodes|
            invariant 0 <= j <= |nodes|
            invariant nodes == listed
            invariant events == AttachEvent(AttachEvents(old(events), nodes, list[..i]), nodes[..j], e)
          {
            var node := nodes[j];
            AttachEventStep(AttachEvents(old(events), nodes, list[..i]), nodes, j, e);
            if e.involvedObject.kind == Some("Node") && e.involvedObject.name == Name(node.metadata) {
              events := AppendAt(events, node, e);
            }
            j := j + 1;
          }
          assert nodes[..|nodes|] == nodes;
          i := i + 1;
        }
        assert list[..|list|] == list;
        AttachEventsNoDup(old(events), nodes, list);
      }
    }
  }

  /** `cap.getValue() ?? 0 == 0` fails: the resource has a known, non-zero capacity. */
  predicate HasCapacity(q: Quantity) {
    q.value.GetOr(0.0) != 0.0
  }

  /** `allocatable[name] ?? Quantity(integerLiteral: 0)`. */
  function AllocatableOrZero(allocatable: map<string, Quantity>, name: string): Quantity {
    if name in allocatable then allocatable[name] else ZeroQuantity
  }

  /**
   * `ResourceView.onAppear`: every resource with a known, non-zero capacity
   * maps to (allocatable or 0, capacity); resources whose capacity is zero or
   * does not parse are skipped, and other entries are left as they were.
   */
  method FreeMap(capacity: map<string, Quantity>, allocatable: map<string, Quantity>,
                 current: map<string, (Quantity, Quantity)>)
    returns (m: map<string, (Quantity, Quantity)>)
    ensures forall r :: r in m <==> r in current || (r in capacity && HasCapacity(capacity[r]))
    ensures forall r :: r in capacity && HasCapacity(capacity[r]) ==>
      m[r] == (AllocatableOrZero(allocatable, r), capacity[r])
    ensures forall r :: r in current && !(r in capacity && HasCapacity(capacity[r])) ==> m[r] == current[r]
  {
    m := current;
    var todo := capacity.Keys;
    while todo != {}
      invariant todo <= capacity.Keys
      invariant forall r :: r in m <==> r in current || (r in capacity && r !in todo && HasCapacity(capacity[r]))
      invariant forall r :: r in capacity && r !in todo && HasCapacity(capacity[r]) ==>
        m[r] == (AllocatableOrZero(allocatable, r), capacity[r])
      invariant forall r :: r in current && !(r in capacity && r !in todo && HasCapacity(capacity[r])) ==>
        m[r] == current[r]
      decreases todo
    {
      var name :| name in todo;
      var cap := capacity[name];
      todo := todo - {name};
      if cap.value.GetOr(0.0) == 0.0 {
        continue;
      }
      m := m[name := (AllocatableOrZero(allocatable, name), cap)];
    }
  }

  /** `node.status?.conditions ?? []`. */
  function Conditions(n: Node): seq<NodeCondition> {
    if n.status.Some? && n.status.value.conditions.Some? then n.status.value.conditions.value else []
  }

  /** The last condition of type "Ready", if any. */
  function LastReadyCondition(conditions: seq<NodeCondition>): (c: Option<NodeCondition>)
    ensures c.Some? ==> c.value in conditions && c.value.conditionType == "Ready"
    ensures c.None? ==> forall x :: x in conditions ==> x.conditionType != "Ready"
    decreases |conditions|
  {
    if conditions == [] then None
    else if conditions[|conditions| - 1].conditionType == "Ready" then Some(conditions[|conditions| - 1])
    else
      var r := LastReadyCondition(conditions[..|conditions| - 1]);
      assert conditions == conditions[..|conditions| - 1] + [conditions[|conditions| - 1]];
      r
  }

  /** A node with a Ready condition must have a name: the readiness loop force-unwraps `node.name`. */
  ghost predicate NamedIfReady(nodes: seq<Node>) {
    forall i, j :: 0 <= i < |nodes| && 0 <= j < |Conditions(nodes[i])| && Conditions(nodes[i])[j].conditionType == "Ready" ==>
      Name(nodes[i].metadata).Some?
  }

  /** The inner readiness loop for a node called `name`: one assignment per Ready condition. */
  function ConditionWrites(name: string, conditions: seq<NodeCondition>): seq<Write<string, bool>>
    decreases |conditions|
  {
    if conditions == [] then []
    else
      var prev := ConditionWrites(name, conditions[..|conditions| - 1]);
      var c := conditions[|conditions| - 1];
      if c.conditionType == "Ready" then prev + [Write(name, Some(c.status == "True"))] else prev
  }

  /** All assignments of the readiness loop, node by node. */
  function ReadinessWrites(nodes: seq<Node>): seq<Write<string, bool>>
    decreases |nodes|
  {
    if nodes == [] then []
    else
      var n := nodes[|nodes| - 1];
      ReadinessWrites(nodes[..|nodes| - 1]) + ConditionWrites(Name(n.metadata).GetOr(""), Conditions(n))
  }

  /**
   * The readiness loop of `NodeListView.task`, starting from the view's
   * current map (which a reload does not clear).
   */
  method ReadinessMap(nodes: seq<Node>, current: map<string, bool>) returns (m: map<string, bool>)
    requires NamedIfReady(nodes)
    ensures m == StoreAll(current, ReadinessWrites(nodes))
  {
    m := current;
    var i := 0;
    while i < |nodes|
      invariant 0 <= i <= |nodes|
      invariant m == StoreAll(current, ReadinessWrites(nodes[..i]))
    {
      var node := nodes[i];
      var conditions := Conditions(node);
      ghost var key := Name(node.metadata).GetOr("");
      ghost var before := m;
      var j := 0;
      while j < |conditions|
        invariant 0 <= j <= |conditions|
        invariant m == StoreAll(before, ConditionWrites(key, conditions[..j]))
      {
        var condition := conditions[j];
        ConditionWritesStep(before, key, conditions, j, m);
        if condition.conditionType == "Ready" {
          assert Conditions(nodes[i])[j].conditionType == "Ready";
          m := m[Name(node.metadata).value := condition.status == "True"];
        }
        j := j + 1;
      }
      ReadinessWritesStep(current, nodes, i, before, m);
      i := i + 1;
    }
    assert nodes[..|nodes|] == nodes;
  }

  /** One pass of the inner readiness loop. */
  lemma ConditionWritesStep(before: map<string, bool>, key: string, conditions: seq<NodeCondition>, j: int, m: map<string, bool>)
    requires 0 <= j < |conditions|
    requires m == StoreAll(before, ConditionWrites(key, conditions[..j]))
    ensures StoreAll(before, ConditionWrites(key, conditions[..j + 1])) ==
      if conditions[j].conditionType == "Ready" then m[key := conditions[j].status == "True"] else m
  {
    assert conditions[..j + 1][..j] == conditions[..j];
    var ws := ConditionWrites(key, conditions[..j]);
    var w := Write(key, Some(conditions[j].status == "True"));
    assert (ws + [w])[..|ws|] == ws;
  }

  /** One pass of the outer readiness loop, given the inner loop's result. */
  lemma ReadinessWritesStep(current: map<string, bool>, nodes: seq<Node>, i: int, before: map<string, bool>, m: map<string, bool>)
    requires 0 <= i < |nodes|
    requires before == StoreAll(current, ReadinessWrites(nodes[..i]))
    requires m == StoreAll(before, ConditionWrites(Name(nodes[i].metadata).GetOr(""), Conditions(nodes[i])[..|Conditions(nodes[i])|]))
    ensures m == StoreAll(current, ReadinessWrites(nodes[..i + 1]))
  {
    var conditions := Conditions(nodes[i]);
    assert conditions[..|conditions|] == conditions;
    assert nodes[..i + 1][..i] == nodes[..i];
    StoreAllConcat(current, ReadinessWrites(nodes[..i]), ConditionWrites(Name(nodes[i].metadata).GetOr(""), conditions));
  }

  /** What the readiness loop records for a node: whether its last Ready condition is "True". */
  function Readiness(n: Node): Option<bool> {
    match LastReadyCondition(Conditions(n))
    case None => None
    case Some(c) => Some(c.status == "True")
  }

  /** The inner loop's last assignment to `name` reflects the node's last Ready condition. */
  lemma {:induction false} ConditionWritesLast(key: string, conditions: seq<NodeCondition>, name: string)
    ensures LastWrite(ConditionWrites(key, conditions), name) ==
      if key == name && LastReadyCondition(conditions).Some?
      then Some(Some(LastReadyCondition(conditions).value.status == "True"))
      else None
    decreases |conditions|
  {
    if conditions != [] {
      var prefix := conditions[..|conditions| - 1];
      var c := conditions[|conditions| - 1];
      ConditionWritesLast(key, prefix, name);
      if c.conditionType == "Ready" {
        var ws := ConditionWrites(key, prefix) + [Write(key, Some(c.status == "True"))];
        assert ws[..|ws| - 1] == ConditionWrites(key, prefix);
      }
    }
  }

  /** `n` is called `name` and has a Ready condition. */
  predicate ReadyNamed(n: Node, name: string) {
    Name(n.metadata) == Some(name) && Readiness(n).Some?
  }

  /** `nodes[i]` is the last node called `name` that has a Ready condition. */
  ghost predicate LastReadyNode(nodes: seq<Node>, name: string, i: int) {
    && 0 <= i < |nodes|
    && ReadyNamed(nodes[i], name)
    && forall j :: i < j < |nodes| ==> !ReadyNamed(nodes[j], name)
  }

  /** The readiness of the last node called `name` that has a Ready condition, if any. */
  function LastReadiness(nodes: seq<Node>, name: string): Option<bool>
    decreases |nodes|
  {
    if nodes == [] then None
    else
      var n := nodes[|nodes| - 1];
      if ReadyNamed(n, name) then Readiness(n)
      else LastReadiness(nodes[..|nodes| - 1], name)
  }

  /** The last assignment to `name` is the readiness of the last node of that name with a Ready condition. */
  lemma {:induction false} ReadinessWritesLast(nodes: seq<Node>, name: string)
    requires NamedIfReady(nodes)
    ensures LastWrite(ReadinessWrites(nodes), name) ==
      if LastReadiness(nodes, name).Some? then Some(LastReadiness(nodes, name)) else None
    decreases |nodes|
  {
    if nodes != [] {
      var prefix := nodes[..|nodes| - 1];
      var n := nodes[|nodes| - 1];
      assert NamedIfReady(prefix) by {
        forall i, j | 0 <= i < |prefix| && 0 <= j < |Conditions(prefix[i])| && Conditions(prefix[i])[j].conditionType == "Ready"
          ensures Name(prefix[i].metadata).Some?
        {
          assert prefix[i] == nodes[i];
        }
      }
      ReadinessWritesLast(prefix, name);
      var key := Name(n.metadata).GetOr("");
      ConditionWritesLast(key, Conditions(n), name);
      LastWriteConcat(ReadinessWrites(prefix), ConditionWrites(key, Conditions(n)), name);
      if Readiness(n).Some? {
        var c := LastReadyCondition(Conditions(n)).value;
        var j :| 0 <= j < |Conditions(n)| && Conditions(n)[j] == c;
        assert Conditions(nodes[|nodes| - 1])[j].conditionType == "Ready";
      }
    }
  }

  /** `LastReadiness` is empty exactly when no node qualifies. */
  lemma {:induction false} LastReadinessNone(nodes: seq<Node>, name: string)
    ensures LastReadiness(nodes, name).None? <==> forall i :: 0 <= i < |nodes| ==> !ReadyNamed(nodes[i], name)
    decreases |nodes|
  {
    if nodes != [] {
      var prefix := nodes[..|nodes| - 1];
      LastReadinessNone(prefix, name);
      forall i | 0 <= i < |prefix|
        ensures prefix[i] == nodes[i]
      {
      }
    }
  }

  /** When some node qualifies, `LastReadiness` is the readiness of the last one that does. */
  lemma {:induction false} LastReadinessOf(nodes: seq<Node>, name: string, i: int)
    requires LastReadyNode(nodes, name, i)
    ensures LastReadiness(nodes, name) == Readiness(nodes[i])
    decreases |nodes|
  {
    var prefix := nodes[..|nodes| - 1];
    if i < |nodes| - 1 {
      assert !ReadyNamed(nodes[|nodes| - 1], name);
      assert LastReadyNode(prefix, name, i) by {
        forall j | i <= j < |prefix|
          ensures prefix[j] == nodes[j]
        {
        }
      }
      LastReadinessOf(prefix, name, i);
    }
  }

  /**
   * The readiness map, name by name: a name with no node carrying a Ready
   * condition keeps its old entry; otherwise the entry is true exactly when
   * the last Ready condition of the last such node is "True", which is that
   * condition's `desirableState()`.
   */
  lemma ReadinessMapAt(current: map<string, bool>, nodes: seq<Node>, name: string)
    requires NamedIfReady(nodes)
    ensures (forall i :: 0 <= i < |nodes| ==> !ReadyNamed(nodes[i], name)) ==>
      SameAt(current, StoreAll(current, ReadinessWrites(nodes)), name)
    ensures forall i :: LastReadyNode(nodes, name, i) ==>
      var c := LastReadyCondition(Conditions(nodes[i])).value;
      && name in StoreAll(current, ReadinessWrites(nodes))
      && StoreAll(current, ReadinessWrites(nodes))[name] == (c.status == "True")
      && StoreAll(current, ReadinessWrites(nodes))[name] == DesirableState(c)
  {
    ReadinessWritesLast(nodes, name);
    LastReadinessNone(nodes, name);
    forall i | LastReadyNode(nodes, name, i)
      ensures LastReadiness(nodes, name) == Readiness(nodes[i])
    {
      LastReadinessOf(nodes, name, i);
    }
    StoreAllAt(current, ReadinessWrites(nodes), name);
  }
}
