/** Request headroom per node: the usage gathered from pages of pods, subtracted
    from what eligible nodes can allocate. */
module NodeHeadroom {
  import opened Common

  /** CPU, memory and pods, each an exact quantity. */
  datatype Amount = Amount(cpu: int, memory: int, pods: int) {
    function Plus(a: Amount): Amount { Amount(cpu + a.cpu, memory + a.memory, pods + a.pods) }
  }

  const NOTHING := Amount(0, 0, 0)

  /** What a node can allocate; an unlisted CPU or memory is 0, an unlisted pod
      capacity is unknown. */
  datatype Node = Node(name: string, cpu: int, memory: int, pods: Option<int>,
                       ready: bool, cordoned: bool, tainted: bool)

  /** A pod with its effective requests. */
  datatype Pod = Pod(node: string, finished: bool, cpu: Option<int>, memory: Option<int>)

  datatype Entry = Entry(name: string, available: Amount, podCapacityKnown: bool)

  /** The summary of all nodes: what the schedulable ones allocate, and how many
      are not ready, cordoned or tainted. */
  datatype NodeCapacity = NodeCapacity(total: nat, schedulable: nat, alloc: Amount, podCapacityKnown: bool,
                                       tainted: nat, notReady: nat, cordoned: nat)

  datatype Headroom = Headroom(capacity: NodeCapacity, requested: Amount, available: Amount, podCapacityKnown: bool,
                               nodes: seq<Entry>)

  type Usage = map<string, Amount>

  function Request(p: Pod): Amount {
    Amount(if p.cpu.Some? then p.cpu.value else 0, if p.memory.Some? then p.memory.value else 0, 1)
  }

  // ---------------------------------------------------------------- snapshot

  function UsageOn(name: string, pods: seq<Pod>): Amount {
    if pods == [] then NOTHING
    else
      var rest, p := UsageOn(name, pods[..|pods| - 1]), pods[|pods| - 1];
      if p.node == name && !p.finished then rest.Plus(Request(p)) else rest
  }

  /** Component by component, over what the pods list. */
  lemma {:induction false} UsageMeans(name: string, pods: seq<Pod>)
    ensures UsageOn(name, pods).cpu == SumOf(pods, (p: Pod) => p.node == name && !p.finished, (p: Pod) => p.cpu)
    ensures UsageOn(name, pods).memory == SumOf(pods, (p: Pod) => p.node == name && !p.finished, (p: Pod) => p.memory)
    ensures UsageOn(name, pods).pods == HowMany(pods, (p: Pod) => p.node == name && !p.finished)
  {
    var runs := (p: Pod) => p.node == name && !p.finished;
    if pods == [] {
      HowManyNone(runs);
    } else {
      var init, p := pods[..|pods| - 1], pods[|pods| - 1];
      UsageMeans(name, init);
      assert pods == init + [p];
      HowManySnoc(init, p, runs);
    }
  }

  /** What the unfinished pods of one node list, added up. */
  ghost predicate AddsUp(used: Amount, name: string, pods: seq<Pod>) {
    && used.cpu == SumOf(pods, (p: Pod) => p.node == name && !p.finished, (p: Pod) => p.cpu)
    && used.memory == SumOf(pods, (p: Pod) => p.node == name && !p.finished, (p: Pod) => p.memory)
    && used.pods == HowMany(pods, (p: Pod) => p.node == name && !p.finished)
  }

  /** The usage of every node of the list, and of no other. */
  ghost predicate Measures(usage: Usage, nodes: seq<Node>, pods: seq<Pod>) {
    && (forall name :: name in usage <==> exists i | 0 <= i < |nodes| :: nodes[i].name == name)
    && (forall name | name in usage :: usage[name] == UsageOn(name, pods))
  }

  method FetchClusterResourceSnapshot(nodes: seq<Node>, pages: seq<seq<Pod>>) returns (usage: Usage)
    ensures Measures(usage, nodes, Flatten(pages))
    ensures forall name | name in usage :: AddsUp(usage[name], name, Flatten(pages))
  {
    usage := map[];
    for i := 0 to |nodes|
      invariant Measures(usage, nodes[..i], [])
    {
      assert nodes[..i + 1][i] == nodes[i] && nodes[..i + 1][..i] == nodes[..i];
      ghost var upTo := nodes[..i + 1];
      usage := usage[nodes[i].name := NOTHING];
      forall name ensures name in usage <==> exists j | 0 <= j < |upTo| :: upTo[j].name == name {
        if j :| 0 <= j < i && nodes[..i][j].name == name {
          assert upTo[j].name == name;
        }
        if j :| 0 <= j < |upTo| && upTo[j].name == name {
          assert j < i ==> nodes[..i][j].name == name;
        }
      }
    }
    assert nodes[..|nodes|] == nodes;
    for i := 0 to |pages|
      invariant Measures(usage, nodes, Flatten(pages[..i]))
    {
      assert pages[..i + 1][..i] == pages[..i];
      usage := AddPage(usage, nodes, Flatten(pages[..i]), pages[i]);
    }
    assert pages[..|pages|] == pages;
    forall name | name in usage ensures AddsUp(usage[name], name, Flatten(pages)) {
      UsageMeans(name, Flatten(pages));
    }
  }

  /** The visitor of one page of pods. */
  method AddPage(before: Usage, ghost nodes: seq<Node>, ghost seen: seq<Pod>, page: seq<Pod>) returns (usage: Usage)
    requires Measures(before, nodes, seen)
    ensures Measures(usage, nodes, seen + page)
  {
    usage := before;
    assert seen + [] == seen;
    for j := 0 to |page|
      invariant Measures(usage, nodes, seen + page[..j])
    {
      var pod := page[j];
      assert (seen + page[..j + 1])[..|seen| + j] == seen + page[..j];
      if pod.node in usage && !pod.finished {
        usage := usage[pod.node := usage[pod.node].Plus(Request(pod))];
      }
    }
    assert page[..|page|] == page;
  }

  // ---------------------------------------------------------------- capacity

  /** What the eligible nodes list as allocatable. */
  function Listed(nodes: seq<Node>, eligible: Node -> bool): Amount {
    if nodes == [] then NOTHING
    else
      var rest, node := Listed(nodes[..|nodes| - 1], eligible), nodes[|nodes| - 1];
      if eligible(node)
      then rest.Plus(Amount(node.cpu, node.memory, if node.pods.Some? then node.pods.value else 0))
      else rest
  }

  /** Component by component, over what the nodes list. */
  lemma {:induction false} ListedMeans(nodes: seq<Node>, eligible: Node -> bool)
    ensures Listed(nodes, eligible).cpu == SumOf(nodes, eligible, (n: Node) => Some(n.cpu))
    ensures Listed(nodes, eligible).memory == SumOf(nodes, eligible, (n: Node) => Some(n.memory))
    ensures Listed(nodes, eligible).pods == SumOf(nodes, eligible, (n: Node) => n.pods)
  {
    if nodes != [] {
      ListedMeans(nodes[..|nodes| - 1], eligible);
    }
  }

  ghost predicate PodsKnown(nodes: seq<Node>, eligible: Node -> bool) {
    forall i | 0 <= i < |nodes| :: eligible(nodes[i]) ==> nodes[i].pods.Some?
  }

  /** What the first loop counts and adds up. */
  ghost predicate Counts(info: NodeCapacity, nodes: seq<Node>, eligible: Node -> bool) {
    && info.total == |nodes| && info.schedulable == HowMany(nodes, eligible) && info.alloc == Listed(nodes, eligible)
    && info.tainted == HowMany(nodes, (n: Node) => n.tainted)
    && info.notReady == HowMany(nodes, (n: Node) => !n.ready)
    && info.cordoned == HowMany(nodes, (n: Node) => n.cordoned)
  }

  ghost predicate Summarizes(info: NodeCapacity, nodes: seq<Node>, eligible: Node -> bool) {
    && Counts(info, nodes, eligible)
    && (info.podCapacityKnown <==> info.schedulable > 0 && PodsKnown(nodes, eligible))
  }

  lemma CountsNone(eligible: Node -> bool)
    ensures Counts(NodeCapacity(0, 0, NOTHING, false, 0, 0, 0), [], eligible)
  {
    HowManyNone(eligible);
    HowManyNone((n: Node) => n.tainted);
    HowManyNone((n: Node) => !n.ready);
    HowManyNone((n: Node) => n.cordoned);
  }

  lemma CountsOneMore(info: NodeCapacity, more: NodeCapacity, nodes: seq<Node>, node: Node, eligible: Node -> bool)
    requires Counts(info, nodes, eligible)
    requires more.total == info.total + 1
    requires more.tainted == info.tainted + (if node.tainted then 1 else 0)
    requires more.notReady == info.notReady + (if !node.ready then 1 else 0)
    requires more.cordoned == info.cordoned + (if node.cordoned then 1 else 0)
    requires more.schedulable == info.schedulable + (if eligible(node) then 1 else 0)
    requires more.alloc ==
      if eligible(node)
      then info.alloc.Plus(Amount(node.cpu, node.memory, if node.pods.Some? then node.pods.value else 0))
      else info.alloc
    ensures Counts(more, nodes + [node], eligible)
  {
    HowManySnoc(nodes, node, eligible);
    HowManySnoc(nodes, node, (n: Node) => n.tainted);
    HowManySnoc(nodes, node, (n: Node) => !n.ready);
    HowManySnoc(nodes, node, (n: Node) => n.cordoned);
    assert (nodes + [node])[..|nodes|] == nodes;
    hide HowMany;
  }

  lemma KnownAside(info: NodeCapacity, more: NodeCapacity, nodes: seq<Node>, eligible: Node -> bool)
    requires Counts(info, nodes, eligible) && more == info.(podCapacityKnown := more.podCapacityKnown)
    ensures Counts(more, nodes, eligible) && more.schedulable == HowMany(nodes, eligible)
  {
  }

  method SummarizeNodeCapacityForPod(nodes: seq<Node>, eligible: Node -> bool) returns (info: NodeCapacity)
    ensures Summarizes(info, nodes, eligible)
  {
    hide HowMany, Listed, Amount.Plus, Counts;
    var notReady, cordoned, tainted, schedulable, alloc := 0, 0, 0, 0, NOTHING;
    CountsNone(eligible);
    for i := 0 to |nodes|
      invariant Counts(NodeCapacity(i, schedulable, alloc, false, tainted, notReady, cordoned), nodes[..i], eligible)
    {
      ghost var info := NodeCapacity(i, schedulable, alloc, false, tainted, notReady, cordoned);
      var node := nodes[i];
      assert nodes[..i + 1] == nodes[..i] + [node];
      notReady := if !node.ready then notReady + 1 else notReady;
      cordoned := if node.cordoned then cordoned + 1 else cordoned;
      tainted := if node.tainted then tainted + 1 else tainted;
      if !eligible(node) {
        ghost var more := NodeCapacity(i + 1, schedulable, alloc, false, tainted, notReady, cordoned);
        CountsOneMore(info, more, nodes[..i], node, eligible);
        continue;
      }
      schedulable := schedulable + 1;
      alloc := alloc.Plus(Amount(node.cpu, node.memory, if node.pods.Some? then node.pods.value else 0));
      ghost var more := NodeCapacity(i + 1, schedulable, alloc, false, tainted, notReady, cordoned);
      CountsOneMore(info, more, nodes[..i], node, eligible);
    }
    ghost var counted := NodeCapacity(|nodes|, schedulable, alloc, false, tainted, notReady, cordoned);
    assert nodes[..|nodes|] == nodes;
    var known := false;
    if schedulable > 0 {
      known := true;
      for i := 0 to |nodes|
        invariant known && PodsKnown(nodes[..i], eligible)
      {
        if eligible(nodes[i]) && nodes[i].pods.None? {
          known := false;
          break;
        }
      }
    }
    info := NodeCapacity(|nodes|, schedulable, alloc, known, tainted, notReady, cordoned);
    KnownAside(counted, info, nodes, eligible);
  }

  // ---------------------------------------------------------------- headroom

  function Available(node: Node, used: Amount): Amount {
    Amount(node.cpu - used.cpu, node.memory - used.memory,
           if node.pods.Some? then node.pods.value - used.pods else 0)
  }

  /** The eligible nodes by name; a later node replaces an earlier namesake. */
  function Eligible(nodes: seq<Node>, eligible: Node -> bool): map<string, Node> {
    if nodes == [] then map[]
    else
      var rest, node := Eligible(nodes[..|nodes| - 1], eligible), nodes[|nodes| - 1];
      if eligible(node) then rest[node.name := node] else rest
  }

  /** Usage as the first loop adds it up. */
  function Requested(nodes: seq<Node>, eligible: Node -> bool, usage: Usage): Amount
    requires forall i | 0 <= i < |nodes| :: nodes[i].name in usage
  {
    if nodes == [] then NOTHING
    else
      var rest, node := Requested(nodes[..|nodes| - 1], eligible, usage), nodes[|nodes| - 1];
      if eligible(node) then rest.Plus(usage[node.name]) else rest
  }

  /** The entries as the second loop makes them. */
  function Entries(nodes: seq<Node>, chosen: map<string, Node>, usage: Usage): seq<Entry>
    requires forall i | 0 <= i < |nodes| :: nodes[i].name in usage
  {
    if nodes == [] then []
    else
      var rest, name := Entries(nodes[..|nodes| - 1], chosen, usage), nodes[|nodes| - 1].name;
      if name in chosen
      then rest + [Entry(name, Available(chosen[name], usage[name]), chosen[name].pods.Some?)]
      else rest
  }

  /** Pods as the second loop adds them up. */
  function RequestedPods(nodes: seq<Node>, chosen: map<string, Node>, usage: Usage): int
    requires forall i | 0 <= i < |nodes| :: nodes[i].name in usage
  {
    if nodes == [] then 0
    else
      var rest, name := RequestedPods(nodes[..|nodes| - 1], chosen, usage), nodes[|nodes| - 1].name;
      if name in chosen then rest + usage[name].pods else rest
  }

  function Sum(entries: seq<Entry>): Amount {
    if entries == [] then NOTHING else Sum(entries[..|entries| - 1]).Plus(entries[|entries| - 1].available)
  }

  /** The entries, their sum, and the requests as the two loops add them up. */
  ghost predicate Reports(h: Headroom, nodes: seq<Node>, usage: Usage, eligible: Node -> bool) {
    && (forall i | 0 <= i < |nodes| :: nodes[i].name in usage)
    && Summarizes(h.capacity, nodes, eligible) && h.podCapacityKnown == h.capacity.podCapacityKnown
    && h.nodes == Entries(nodes, Eligible(nodes, eligible), usage)
    && h.available == Sum(h.nodes)
    && h.requested.(pods := 0) == Requested(nodes, eligible, usage).(pods := 0)
    && h.requested.pods == RequestedPods(nodes, Eligible(nodes, eligible), usage)
  }

  method HeadroomForPod(nodes: seq<Node>, usage: Usage, eligible: Node -> bool) returns (h: Headroom)
    requires forall i | 0 <= i < |nodes| :: nodes[i].name in usage
    ensures Reports(h, nodes, usage, eligible)
  {
    var capacity := SummarizeNodeCapacityForPod(nodes, eligible);
    hide Summarizes;
    var chosen: map<string, Node> := map[];
    var cpu, memory := 0, 0;
    for i := 0 to |nodes|
      invariant chosen == Eligible(nodes[..i], eligible)
      invariant Requested(nodes[..i], eligible, usage).cpu == cpu
      invariant Requested(nodes[..i], eligible, usage).memory == memory
    {
      assert nodes[..i + 1][..i] == nodes[..i];
      var node := nodes[i];
      if eligible(node) {
        chosen := chosen[node.name := node];
        cpu, memory := cpu + usage[node.name].cpu, memory + usage[node.name].memory;
      }
    }
    assert nodes[..|nodes|] == nodes;
    var available, pods, entries := NOTHING, 0, [];
    for i := 0 to |nodes|
      invariant entries == Entries(nodes[..i], chosen, usage)
      invariant available == Sum(entries) && pods == RequestedPods(nodes[..i], chosen, usage)
    {
      assert nodes[..i + 1][..i] == nodes[..i];
      var name := nodes[i].name;
      if name in chosen {
        var entry := Entry(name, Available(chosen[name], usage[name]), chosen[name].pods.Some?);
        assert (entries + [entry])[..|entries|] == entries;
        available, pods, entries := available.Plus(entry.available), pods + usage[name].pods, entries + [entry];
      }
    }
    h := Headroom(capacity, Amount(cpu, memory, pods), available, capacity.podCapacityKnown, entries);
  }

  // ------------------------------------------------------------ conservation

  /** Node names are unique, as the API server guarantees. */
  ghost predicate Distinct(nodes: seq<Node>) {
    forall i, j | 0 <= i < j < |nodes| :: nodes[i].name != nodes[j].name
  }

  /** The map holds exactly the eligible nodes. */
  ghost predicate Chosen(nodes: seq<Node>, eligible: Node -> bool, chosen: map<string, Node>) {
    forall i | 0 <= i < |nodes| ::
      && (nodes[i].name in chosen <==> eligible(nodes[i]))
      && (eligible(nodes[i]) ==> chosen[nodes[i].name] == nodes[i])
  }

  lemma {:induction false} EligibleNames(nodes: seq<Node>, eligible: Node -> bool)
    ensures forall name | name in Eligible(nodes, eligible) ::
      exists i | 0 <= i < |nodes| :: nodes[i].name == name && eligible(nodes[i])
  {
    if nodes != [] {
      var init := nodes[..|nodes| - 1];
      EligibleNames(init, eligible);
      forall name | name in Eligible(nodes, eligible)
        ensures exists i | 0 <= i < |nodes| :: nodes[i].name == name && eligible(nodes[i])
      {
        if name in Eligible(init, eligible) {
          var i :| 0 <= i < |init| && init[i].name == name && eligible(init[i]);
          assert nodes[i].name == name;
        }
      }
    }
  }

  lemma {:induction false} DistinctChosen(nodes: seq<Node>, eligible: Node -> bool)
    requires Distinct(nodes)
    ensures Chosen(nodes, eligible, Eligible(nodes, eligible))
  {
    if nodes != [] {
      var n := |nodes| - 1;
      DistinctChosen(nodes[..n], eligible);
      EligibleNames(nodes[..n], eligible);
      forall i | 0 <= i < |nodes|
        ensures nodes[i].name in Eligible(nodes, eligible) <==> eligible(nodes[i])
        ensures eligible(nodes[i]) ==> Eligible(nodes, eligible)[nodes[i].name] == nodes[i]
      {
        if i < n {
          assert nodes[..n][i] == nodes[i] && nodes[i].name != nodes[n].name;
        }
      }
    }
  }

  /** What a node can allocate; one of unknown pod capacity counts for the pods
      it runs. */
  function Capacity(node: Node, used: Amount): Amount {
    Amount(node.cpu, node.memory, if node.pods.Some? then node.pods.value else used.pods)
  }

  /** What the eligible nodes can allocate together. */
  function Allocatable(nodes: seq<Node>, eligible: Node -> bool, usage: Usage): Amount
    requires forall i | 0 <= i < |nodes| :: nodes[i].name in usage
  {
    if nodes == [] then NOTHING
    else
      var rest, node := Allocatable(nodes[..|nodes| - 1], eligible, usage), nodes[|nodes| - 1];
      if eligible(node)
      then rest.Plus(Capacity(node, usage[node.name]))
      else rest
  }

  lemma SumSnoc(entries: seq<Entry>, e: Entry)
    ensures Sum(entries + [e]) == Sum(entries).Plus(e.available)
  {
    assert (entries + [e])[..|entries|] == entries;
  }

  lemma {:induction false} PodsConserve(nodes: seq<Node>, eligible: Node -> bool, chosen: map<string, Node>,
                                        usage: Usage)
    requires forall i | 0 <= i < |nodes| :: nodes[i].name in usage
    requires Chosen(nodes, eligible, chosen)
    ensures RequestedPods(nodes, chosen, usage) == Requested(nodes, eligible, usage).pods
  {
    if nodes != [] {
      PodsConserve(nodes[..|nodes| - 1], eligible, chosen, usage);
    }
  }

  /** Usage and what it leaves make up the capacity. */
  lemma Leaves(requested: Amount, available: Amount, allocatable: Amount, node: Node, used: Amount)
    requires requested.Plus(available) == allocatable
    ensures requested.Plus(used).Plus(available.Plus(Available(node, used))) == allocatable.Plus(Capacity(node, used))
  {
  }

  lemma {:induction false} EntriesConserve(nodes: seq<Node>, eligible: Node -> bool, chosen: map<string, Node>,
                                           usage: Usage)
    requires forall i | 0 <= i < |nodes| :: nodes[i].name in usage
    requires Chosen(nodes, eligible, chosen)
    ensures Requested(nodes, eligible, usage).Plus(Sum(Entries(nodes, chosen, usage)))
         == Allocatable(nodes, eligible, usage)
  {
    if nodes == [] {
      assert Entries(nodes, chosen, usage) == [];
      hide Entries;
      assert Sum([]) == NOTHING;
    } else {
      hide Amount.Plus, Sum, Available, Capacity;
      var n := |nodes| - 1;
      var node := nodes[n];
      EntriesConserve(nodes[..n], eligible, chosen, usage);
      if eligible(node) {
        var used := usage[node.name];
        var rest := Entries(nodes[..n], chosen, usage);
        SumSnoc(rest, Entry(node.name, Available(node, used), node.pods.Some?));
        Leaves(Requested(nodes[..n], eligible, usage), Sum(rest), Allocatable(nodes[..n], eligible, usage), node, used);
      }
    }
  }

  /** Nothing is lost or invented: what is requested and what is available add up
      to what eligible nodes can allocate. */
  lemma Conservation(nodes: seq<Node>, eligible: Node -> bool, usage: Usage, h: Headroom)
    requires Distinct(nodes) && Reports(h, nodes, usage, eligible)
    ensures h.requested.Plus(h.available) == Allocatable(nodes, eligible, usage)
    ensures h.requested == Requested(nodes, eligible, usage)
  {
    DistinctChosen(nodes, eligible);
    EntriesConserve(nodes, eligible, Eligible(nodes, eligible), usage);
    PodsConserve(nodes, eligible, Eligible(nodes, eligible), usage);
  }

  lemma {:induction false} ListedIsAllocatable(nodes: seq<Node>, eligible: Node -> bool, usage: Usage)
    requires forall i | 0 <= i < |nodes| :: nodes[i].name in usage
    ensures Listed(nodes, eligible).(pods := 0) == Allocatable(nodes, eligible, usage).(pods := 0)
    ensures PodsKnown(nodes, eligible) ==> Listed(nodes, eligible) == Allocatable(nodes, eligible, usage)
  {
    if nodes != [] {
      ListedIsAllocatable(nodes[..|nodes| - 1], eligible, usage);
    }
  }

  /** The summary is split without loss: CPU and memory always, pods when every
      eligible node's capacity is known. */
  lemma CapacitySplits(nodes: seq<Node>, eligible: Node -> bool, usage: Usage, h: Headroom)
    requires Distinct(nodes) && Reports(h, nodes, usage, eligible)
    ensures h.requested.Plus(h.available).(pods := 0) == h.capacity.alloc.(pods := 0)
    ensures h.podCapacityKnown ==> h.requested.Plus(h.available) == h.capacity.alloc
  {
    Conservation(nodes, eligible, usage, h);
    ListedIsAllocatable(nodes, eligible, usage);
  }

  // ------------------------------------------------- requests counted directly

  /** The pod runs on an eligible node. */
  ghost predicate RunsOn(p: Pod, nodes: seq<Node>, eligible: Node -> bool) {
    !p.finished && exists i | 0 <= i < |nodes| :: nodes[i].name == p.node && eligible(nodes[i])
  }

  /** The requests of the pods that run on eligible nodes, pod by pod. */
  ghost function Direct(pods: seq<Pod>, nodes: seq<Node>, eligible: Node -> bool): Amount {
    if pods == [] then NOTHING
    else
      var rest, p := Direct(pods[..|pods| - 1], nodes, eligible), pods[|pods| - 1];
      if RunsOn(p, nodes, eligible) then rest.Plus(Request(p)) else rest
  }

  /** Usage summed node by node. */
  function ByNode(pods: seq<Pod>, nodes: seq<Node>, eligible: Node -> bool): Amount {
    if nodes == [] then NOTHING
    else
      var rest, node := ByNode(pods, nodes[..|nodes| - 1], eligible), nodes[|nodes| - 1];
      if eligible(node) then rest.Plus(UsageOn(node.name, pods)) else rest
  }

  lemma {:induction false} ByNodeIsRequested(pods: seq<Pod>, nodes: seq<Node>, eligible: Node -> bool, usage: Usage)
    requires forall i | 0 <= i < |nodes| :: nodes[i].name in usage
    requires forall name | name in usage :: usage[name] == UsageOn(name, pods)
    ensures Requested(nodes, eligible, usage) == ByNode(pods, nodes, eligible)
  {
    if nodes != [] {
      ByNodeIsRequested(pods, nodes[..|nodes| - 1], eligible, usage);
    }
  }

  lemma {:induction false} NoPods(nodes: seq<Node>, eligible: Node -> bool)
    ensures ByNode([], nodes, eligible) == NOTHING
  {
    if nodes != [] {
      NoPods(nodes[..|nodes| - 1], eligible);
    }
  }

  /** One more pod adds its request once: node names are distinct. */
  lemma {:induction false} OneMorePod(pods: seq<Pod>, p: Pod, nodes: seq<Node>, eligible: Node -> bool)
    requires Distinct(nodes)
    ensures ByNode(pods + [p], nodes, eligible)
         == if RunsOn(p, nodes, eligible) then ByNode(pods, nodes, eligible).Plus(Request(p))
            else ByNode(pods, nodes, eligible)
  {
    if nodes != [] {
      var n := |nodes| - 1;
      var init, node := nodes[..n], nodes[n];
      OneMorePod(pods, p, init, eligible);
      assert (pods + [p])[..|pods|] == pods;
      RunsOnOneMore(p, nodes, eligible);
    }
  }

  lemma RunsOnOneMore(p: Pod, nodes: seq<Node>, eligible: Node -> bool)
    requires nodes != [] && Distinct(nodes)
    ensures var n := |nodes| - 1;
      && (RunsOn(p, nodes, eligible) <==>
            RunsOn(p, nodes[..n], eligible) || (!p.finished && nodes[n].name == p.node && eligible(nodes[n])))
      && !(RunsOn(p, nodes[..n], eligible) && nodes[n].name == p.node)
  {
    var n := |nodes| - 1;
    if RunsOn(p, nodes[..n], eligible) {
      var i :| 0 <= i < n && nodes[..n][i].name == p.node && eligible(nodes[..n][i]);
      assert nodes[i].name == p.node && eligible(nodes[i]);
    }
    if RunsOn(p, nodes, eligible) {
      var i :| 0 <= i < |nodes| && nodes[i].name == p.node && eligible(nodes[i]);
      assert i < n ==> nodes[..n][i].name == p.node;
    }
  }

  /** The requests added up per node are those of the pods themselves. */
  lemma {:induction false} RequestedDirectly(pods: seq<Pod>, nodes: seq<Node>, eligible: Node -> bool)
    requires Distinct(nodes)
    ensures ByNode(pods, nodes, eligible) == Direct(pods, nodes, eligible)
  {
    if pods == [] {
      NoPods(nodes, eligible);
    } else {
      var init, p := pods[..|pods| - 1], pods[|pods| - 1];
      RequestedDirectly(init, nodes, eligible);
      OneMorePod(init, p, nodes, eligible);
      assert pods == init + [p];
    }
  }

  /** Component by component, over what the pods on eligible nodes list. */
  lemma {:induction false} DirectMeans(pods: seq<Pod>, nodes: seq<Node>, eligible: Node -> bool)
    ensures Direct(pods, nodes, eligible).cpu
         == SumOf(pods, (p: Pod) => RunsOn(p, nodes, eligible), (p: Pod) => p.cpu)
    ensures Direct(pods, nodes, eligible).memory
         == SumOf(pods, (p: Pod) => RunsOn(p, nodes, eligible), (p: Pod) => p.memory)
    ensures Direct(pods, nodes, eligible).pods == HowMany(pods, (p: Pod) => RunsOn(p, nodes, eligible))
  {
    hide RunsOn;
    var runs := (p: Pod) => RunsOn(p, nodes, eligible);
    if pods == [] {
      HowManyNone(runs);
    } else {
      var init, p := pods[..|pods| - 1], pods[|pods| - 1];
      DirectMeans(init, nodes, eligible);
      assert pods == init + [p];
      HowManySnoc(init, p, runs);
    }
  }

  /** The entry of an eligible node: what its own pods leave of it. */
  ghost predicate EntryOf(e: Entry, node: Node, pods: seq<Pod>) {
    var runs := (p: Pod) => p.node == node.name && !p.finished;
    && e.name == node.name && (e.podCapacityKnown <==> node.pods.Some?)
    && e.available.cpu == node.cpu - SumOf(pods, runs, (p: Pod) => p.cpu)
    && e.available.memory == node.memory - SumOf(pods, runs, (p: Pod) => p.memory)
    && e.available.pods == if node.pods.Some? then node.pods.value - HowMany(pods, runs) else 0
  }

  /** One entry for each eligible node, in the order of the nodes. */
  ghost predicate EntryEach(entries: seq<Entry>, nodes: seq<Node>, eligible: Node -> bool, pods: seq<Pod>) {
    && |entries| == HowMany(nodes, eligible)
    && forall k | 0 <= k < |nodes| :: eligible(nodes[k]) ==>
         var before := HowMany(nodes[..k], eligible);
         before < |entries| && EntryOf(entries[before], nodes[k], pods)
  }

  lemma {:induction false} EntriesMean(nodes: seq<Node>, eligible: Node -> bool, chosen: map<string, Node>,
                                       usage: Usage, pods: seq<Pod>)
    requires forall i | 0 <= i < |nodes| :: nodes[i].name in usage
    requires forall name | name in usage :: usage[name] == UsageOn(name, pods)
    requires Chosen(nodes, eligible, chosen)
    ensures EntryEach(Entries(nodes, chosen, usage), nodes, eligible, pods)
  {
    if nodes == [] {
      HowManyNone(eligible);
    } else {
      var n := |nodes| - 1;
      var init, node := nodes[..n], nodes[n];
      EntriesMean(init, eligible, chosen, usage, pods);
      assert nodes == init + [node];
      UsageMeans(node.name, pods);
      var e := Entry(node.name, Available(node, usage[node.name]), node.pods.Some?);
      assert EntryOf(e, node, pods);
      hide EntryOf, HowMany, SumOf, Available;
      EntryEachMore(Entries(init, chosen, usage), e, init, node, eligible, pods);
    }
  }

  lemma EntryEachMore(entries: seq<Entry>, e: Entry, nodes: seq<Node>, node: Node, eligible: Node -> bool,
                      pods: seq<Pod>)
    requires EntryEach(entries, nodes, eligible, pods) && EntryOf(e, node, pods)
    ensures EntryEach(if eligible(node) then entries + [e] else entries, nodes + [node], eligible, pods)
  {
    HowManySnoc(nodes, node, eligible);
    hide EntryOf, HowMany;
    var all, after := nodes + [node], if eligible(node) then entries + [e] else entries;
    forall k | 0 <= k < |all| && eligible(all[k])
      ensures var before := HowMany(all[..k], eligible); before < |after| && EntryOf(after[before], all[k], pods)
    {
      if k < |nodes| {
        assert all[..k] == nodes[..k] && all[k] == nodes[k];
      } else {
        assert all[..k] == nodes;
      }
    }
  }

  // ------------------------------------------------- order of pods and pages

  lemma {:induction false} UsageWithout(name: string, a: seq<Pod>, p: Pod, b: seq<Pod>)
    ensures UsageOn(name, a + [p] + b)
         == if p.node == name && !p.finished then UsageOn(name, a + b).Plus(Request(p)) else UsageOn(name, a + b)
  {
    if b == [] {
      assert (a + [p] + b)[..|a|] == a && a + b == a;
    } else {
      var n := |b| - 1;
      UsageWithout(name, a, p, b[..n]);
      assert (a + [p] + b)[..|a| + 1 + n] == a + [p] + b[..n];
      assert (a + b)[..|a| + n] == a + b[..n];
    }
  }

  lemma Remove<T>(init: seq<T>, p: T, a: seq<T>, b: seq<T>)
    requires multiset(init + [p]) == multiset(a + [p] + b)
    ensures multiset(init) == multiset(a + b)
  {
    assert multiset(init) == multiset(init + [p]) - multiset{p};
    assert multiset(a + b) == multiset(a + [p] + b) - multiset{p};
  }

  lemma Locate<T>(p: T, others: seq<T>) returns (a: seq<T>, b: seq<T>)
    requires p in multiset(others)
    ensures others == a + [p] + b
  {
    var i :| 0 <= i < |others| && others[i] == p;
    a, b := others[..i], others[i + 1..];
  }

  /** However the pods are ordered or split into pages, usage is the same. */
  lemma {:induction false} OrderDoesNotMatter(name: string, pods: seq<Pod>, others: seq<Pod>)
    requires multiset(pods) == multiset(others)
    ensures UsageOn(name, pods) == UsageOn(name, others)
  {
    assert |pods| == |multiset(pods)| == |multiset(others)| == |others|;
    if pods != [] {
      var init, p := pods[..|pods| - 1], pods[|pods| - 1];
      assert pods == init + [p];
      assert p in multiset(pods);
      var a, b := Locate(p, others);
      Remove(init, p, a, b);
      OrderDoesNotMatter(name, init, a + b);
      UsageWithout(name, a, p, b);
    }
  }

  // --------------------------------------------------------------- the report

  /** The lists as the server returned them; either may end in an error. */
  datatype Lists = Lists(nodes: seq<Node>, nodesFailed: bool, pods: seq<seq<Pod>>, podsFailed: bool)

  /** The report in terms of what pods and nodes list: the requests of the pods on
      eligible nodes, what eligible nodes can allocate, and the difference. */
  ghost predicate Balances(h: Headroom, nodes: seq<Node>, pods: seq<Pod>, eligible: Node -> bool) {
    var runs := (p: Pod) => RunsOn(p, nodes, eligible);
    && h.requested.cpu == SumOf(pods, runs, (p: Pod) => p.cpu)
    && h.requested.memory == SumOf(pods, runs, (p: Pod) => p.memory)
    && h.requested.pods == HowMany(pods, runs)
    && h.capacity.alloc.cpu == SumOf(nodes, eligible, (n: Node) => Some(n.cpu))
    && h.capacity.alloc.memory == SumOf(nodes, eligible, (n: Node) => Some(n.memory))
    && h.capacity.alloc.pods == SumOf(nodes, eligible, (n: Node) => n.pods)
    && h.available.cpu == h.capacity.alloc.cpu - h.requested.cpu
    && h.available.memory == h.capacity.alloc.memory - h.requested.memory
    && (h.podCapacityKnown ==> h.available.pods == h.capacity.alloc.pods - h.requested.pods)
    && EntryEach(h.nodes, nodes, eligible, pods)
  }

  lemma ReportBalances(h: Headroom, nodes: seq<Node>, pods: seq<Pod>, usage: Usage, eligible: Node -> bool)
    requires Distinct(nodes) && Measures(usage, nodes, pods) && Reports(h, nodes, usage, eligible)
    ensures h.requested == Direct(pods, nodes, eligible)
    ensures Balances(h, nodes, pods, eligible)
  {
    hide RunsOn, EntryEach, HowMany, SumOf, Entries, Requested, RequestedPods, Sum, Listed, Allocatable;
    Conservation(nodes, eligible, usage, h);
    CapacitySplits(nodes, eligible, usage, h);
    ByNodeIsRequested(pods, nodes, eligible, usage);
    RequestedDirectly(pods, nodes, eligible);
    ListedMeans(nodes, eligible);
    DirectMeans(pods, nodes, eligible);
    DistinctChosen(nodes, eligible);
    EntriesMean(nodes, eligible, Eligible(nodes, eligible), usage, pods);
  }

  /** Unknown when a list failed; otherwise the requests of the pods on eligible
      nodes, pod by pod, and what those leave of the nodes' capacity. */
  method FetchClusterResourceHeadroomForPod(lists: Lists, eligible: Node -> bool)
    returns (headroom: Option<Headroom>, usage: Usage)
    ensures headroom.None? <==> lists.nodesFailed || lists.podsFailed
    ensures headroom.Some? ==>
      Measures(usage, lists.nodes, Flatten(lists.pods)) && Reports(headroom.value, lists.nodes, usage, eligible)
    ensures headroom.Some? && Distinct(lists.nodes) ==>
      && Balances(headroom.value, lists.nodes, Flatten(lists.pods), eligible)
      && headroom.value.requested.Plus(headroom.value.available) == Allocatable(lists.nodes, eligible, usage)
      && (headroom.value.podCapacityKnown ==>
            headroom.value.requested.Plus(headroom.value.available) == headroom.value.capacity.alloc)
  {
    if lists.nodesFailed {
      return None, map[];
    }
    usage := FetchClusterResourceSnapshot(lists.nodes, lists.pods);
    if lists.podsFailed {
      return None, usage;
    }
    var h := HeadroomForPod(lists.nodes, usage, eligible);
    if Distinct(lists.nodes) {
      Conservation(lists.nodes, eligible, usage, h);
      CapacitySplits(lists.nodes, eligible, usage, h);
      ReportBalances(h, lists.nodes, Flatten(lists.pods), usage, eligible);
    }
    headroom := Some(h);
  }
}
