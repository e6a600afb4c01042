/** Splitting the claimed queues into worker plans by NUMA node. */
module Factory {
  import opened Bits
  import opened Wrappers

  datatype QueueSlot = QueueSlot(ifindex: nat, queue: nat, node: nat)

  datatype Plan = Plan(cpu: nat, node: nat, ifindex: nat, slots: seq<QueueSlot>)

  /** The errors of `build`.  `NoCores` stands for the panic of taking a core of a node that
      lists none. */
  datatype Error =
    | NoQueues | NoThreads | ThreadsNotDivisible | QueuesNotDivisible | BlockSpansInterfaces | ForeignCore | NoCores

  datatype Result<+T> = Ok(value: T) | Err(error: Error)

  /** Cores of each node, and an optional strategy choosing among them. */
  datatype Cores = Cores(of: nat -> seq<nat>, assign: Option<(nat, seq<nat>, nat) -> nat>)

  // ---------------------------------------------------------------- grouping

  /** Queues of one node, in claim order. */
  function OnNode(slots: seq<QueueSlot>, node: nat): (r: seq<QueueSlot>)
    ensures forall s :: s in r ==> s.node == node
  {
    if slots == [] then [] else (if slots[0].node == node then [slots[0]] else []) + OnNode(slots[1..], node)
  }

  function Nodes(slots: seq<QueueSlot>): set<nat> { set s | s in slots :: s.node }

  /** Queues whose node is not in the set. */
  function Outside(slots: seq<QueueSlot>, nodes: set<nat>): (r: seq<QueueSlot>)
  {
    if slots == [] then [] else (if slots[0].node !in nodes then [slots[0]] else []) + Outside(slots[1..], nodes)
  }

  /** Moving one node out of the set adds exactly its queues. */
  lemma {:induction false} OneMoreNode(slots: seq<QueueSlot>, nodes: set<nat>, node: nat)
    requires node in nodes
    ensures multiset(Outside(slots, nodes - {node})) == multiset(Outside(slots, nodes)) + multiset(OnNode(slots, node))
  {
    if slots != [] { OneMoreNode(slots[1..], nodes, node); }
  }

  lemma {:induction false} OutsideAll(slots: seq<QueueSlot>, nodes: set<nat>)
    ensures (forall s :: s in slots ==> s.node in nodes) ==> Outside(slots, nodes) == []
    ensures Outside(slots, {}) == slots
  {
    if slots != [] {
      OutsideAll(slots[1..], nodes);
      assert slots == [slots[0]] + slots[1..];
    }
  }

  lemma {:induction false} NodeHasQueue(slots: seq<QueueSlot>, node: nat)
    requires node in Nodes(slots)
    ensures OnNode(slots, node) != []
  {
    var s :| s in slots && s.node == node;
    if slots[0].node != node {
      assert s in slots[1..];
      NodeHasQueue(slots[1..], node);
    }
  }

  // ---------------------------------------------------------------- stable sort by interface

  function InsertByIf(x: QueueSlot, slots: seq<QueueSlot>): seq<QueueSlot>
  {
    if slots == [] then [x] else if slots[0].ifindex < x.ifindex then [slots[0]] + InsertByIf(x, slots[1..])
    else [x] + slots
  }

  function SortByIf(slots: seq<QueueSlot>): seq<QueueSlot>
  {
    if slots == [] then [] else InsertByIf(slots[0], SortByIf(slots[1..]))
  }

  lemma {:induction false} InsertKeeps(x: QueueSlot, slots: seq<QueueSlot>)
    ensures multiset(InsertByIf(x, slots)) == multiset(slots) + multiset{x} && |InsertByIf(x, slots)| == |slots| + 1
  {
    if slots != [] {
      InsertKeeps(x, slots[1..]);
      assert slots == [slots[0]] + slots[1..];
    }
  }

  lemma {:induction false} SortKeeps(slots: seq<QueueSlot>)
    ensures multiset(SortByIf(slots)) == multiset(slots) && |SortByIf(slots)| == |slots|
  {
    if slots != [] {
      SortKeeps(slots[1..]);
      InsertKeeps(slots[0], SortByIf(slots[1..]));
      assert slots == [slots[0]] + slots[1..];
    }
  }

  /** Queues of one interface on one node, in order. */
  function Of(slots: seq<QueueSlot>, node: nat, ifindex: nat): (r: seq<QueueSlot>)
  {
    if slots == [] then []
    else
      var first := if slots[0].node == node && slots[0].ifindex == ifindex then [slots[0]] else [];
      first + Of(slots[1..], node, ifindex)
  }

  lemma {:induction false} OfConcat(a: seq<QueueSlot>, b: seq<QueueSlot>, node: nat, ifindex: nat)
    ensures Of(a + b, node, ifindex) == Of(a, node, ifindex) + Of(b, node, ifindex)
  {
    if a == [] {
      assert a + b == b;
    } else {
      OfConcat(a[1..], b, node, ifindex);
      assert (a + b)[0] == a[0] && (a + b)[1..] == a[1..] + b;
      var first := if a[0].node == node && a[0].ifindex == ifindex then [a[0]] else [];
      Associates(first, Of(a[1..], node, ifindex), Of(b, node, ifindex));
    }
  }

  lemma {:induction false} OfNothing(slots: seq<QueueSlot>, node: nat, ifindex: nat)
    requires forall s :: s in slots ==> s.node != node
    ensures Of(slots, node, ifindex) == []
  {
    if slots != [] { OfNothing(slots[1..], node, ifindex); }
  }

  lemma {:induction false} OfOnNode(slots: seq<QueueSlot>, node: nat, ifindex: nat)
    ensures Of(OnNode(slots, node), node, ifindex) == Of(slots, node, ifindex)
  {
    if slots != [] {
      OfOnNode(slots[1..], node, ifindex);
      if slots[0].node == node {
        assert OnNode(slots, node)[1..] == OnNode(slots[1..], node);
      } else {
        assert OnNode(slots, node) == OnNode(slots[1..], node);
      }
    }
  }

  lemma {:induction false} InsertStable(x: QueueSlot, slots: seq<QueueSlot>, node: nat, ifindex: nat)
    ensures Of(InsertByIf(x, slots), node, ifindex) == Of([x] + slots, node, ifindex)
  {
    if slots != [] && slots[0].ifindex < x.ifindex {
      InsertStable(x, slots[1..], node, ifindex);
      assert ([slots[0]] + InsertByIf(x, slots[1..]))[1..] == InsertByIf(x, slots[1..]);
      assert ([x] + slots)[1..] == slots && ([x] + slots[1..])[1..] == slots[1..];
    }
  }

  /** Sorting keeps the queues of each interface in order. */
  lemma {:induction false} SortStable(slots: seq<QueueSlot>, node: nat, ifindex: nat)
    ensures Of(SortByIf(slots), node, ifindex) == Of(slots, node, ifindex)
  {
    if slots != [] {
      SortStable(slots[1..], node, ifindex);
      InsertStable(slots[0], SortByIf(slots[1..]), node, ifindex);
      assert ([slots[0]] + SortByIf(slots[1..]))[1..] == SortByIf(slots[1..]);
    }
  }

  ghost predicate SortedByIf(slots: seq<QueueSlot>)
  {
    forall i, j :: 0 <= i < j < |slots| ==> slots[i].ifindex <= slots[j].ifindex
  }

  lemma {:induction false} InsertSorts(x: QueueSlot, slots: seq<QueueSlot>)
    requires SortedByIf(slots)
    ensures SortedByIf(InsertByIf(x, slots))
    ensures forall s :: s in InsertByIf(x, slots) ==> s == x || s in slots
  {
    if slots != [] && slots[0].ifindex < x.ifindex {
      InsertSorts(x, slots[1..]);
      var rest := InsertByIf(x, slots[1..]);
      forall j | 0 <= j < |rest|
        ensures slots[0].ifindex <= rest[j].ifindex
      {
        assert rest[j] in rest;
        if rest[j] != x {
          var k :| 0 <= k < |slots[1..]| && slots[1..][k] == rest[j];
          assert slots[k + 1] == rest[j];
        }
      }
    }
  }

  /** Queues of one interface. */
  function CountIf(slots: seq<QueueSlot>, ifindex: nat): (r: nat)
    ensures r <= |slots|
  {
    if slots == [] then 0 else (if slots[0].ifindex == ifindex then 1 else 0) + CountIf(slots[1..], ifindex)
  }

  lemma {:induction false} InsertCounts(x: QueueSlot, slots: seq<QueueSlot>, ifindex: nat)
    ensures CountIf(InsertByIf(x, slots), ifindex) == CountIf(slots, ifindex) + if x.ifindex == ifindex then 1 else 0
  {
    if slots != [] && slots[0].ifindex < x.ifindex {
      InsertCounts(x, slots[1..], ifindex);
      assert ([slots[0]] + InsertByIf(x, slots[1..]))[1..] == InsertByIf(x, slots[1..]);
    } else {
      assert ([x] + slots)[1..] == slots;
    }
  }

  lemma {:induction false} SortSorts(slots: seq<QueueSlot>)
    ensures SortedByIf(SortByIf(slots)) && forall i :: CountIf(SortByIf(slots), i) == CountIf(slots, i)
  {
    if slots != [] {
      SortSorts(slots[1..]);
      InsertSorts(slots[0], SortByIf(slots[1..]));
      forall i
        ensures CountIf(SortByIf(slots), i) == CountIf(slots, i)
      {
        InsertCounts(slots[0], SortByIf(slots[1..]), i);
      }
    }
  }

  lemma {:induction false} CountConcat(a: seq<QueueSlot>, b: seq<QueueSlot>, ifindex: nat)
    ensures CountIf(a + b, ifindex) == CountIf(a, ifindex) + CountIf(b, ifindex)
  {
    if a == [] {
      assert a + b == b;
    } else {
      assert (a + b)[1..] == a[1..] + b;
      CountConcat(a[1..], b, ifindex);
    }
  }

  lemma {:induction false} CountUniform(block: seq<QueueSlot>, x: nat, ifindex: nat)
    requires OneInterface(block, x)
    ensures CountIf(block, ifindex) == if ifindex == x then |block| else 0
  {
    if block != [] {
      assert block[0] in block;
      assert forall s :: s in block[1..] ==> s in block;
      CountUniform(block[1..], x, ifindex);
    }
  }

  /** In a sorted list the first interface takes the front. */
  lemma {:induction false} CountFront(slots: seq<QueueSlot>, x: nat, k: nat)
    requires SortedByIf(slots) && k < |slots| && slots[k].ifindex > x
    ensures CountIf(slots, x) <= k
  {
    if k > 0 {
      CountFront(slots[1..], x, k - 1);
    } else {
      NoneLater(slots, x);
    }
  }

  lemma {:induction false} NoneLater(slots: seq<QueueSlot>, x: nat)
    requires forall i :: 0 <= i < |slots| ==> slots[i].ifindex > x
    ensures CountIf(slots, x) == 0
  {
    if slots != [] { NoneLater(slots[1..], x); }
  }

  /** Every interface has a whole number of blocks. */
  ghost predicate WholeBlocks(slots: seq<QueueSlot>, perBlock: nat)
    requires perBlock > 0
  {
    forall i :: CountIf(slots, i) % perBlock == 0
  }

  lemma SmallRemainder(c: nat, b: nat)
    requires 0 < c < b
    ensures c % b != 0
  {
    DivModUnique(c, b, 0, c);
  }

  lemma OneMoreBlock(c: nat, b: nat)
    requires b > 0
    ensures (b + c) % b == 0 <==> c % b == 0
  {
    var q, r := c / b, c % b;
    assert b + c == (q + 1) * b + r;
    DivModUnique(b + c, b, q + 1, r);
  }

  /** If every interface has whole blocks, the first block of the sorted queues is on one. */
  lemma FirstBlock(rest: seq<QueueSlot>, b: nat)
    requires SortedByIf(rest) && 0 < b <= |rest| && WholeBlocks(rest, b)
    ensures OneInterface(rest[..b], rest[0].ifindex)
  {
    var x := rest[0].ifindex;
    forall s | s in rest[..b]
      ensures s.ifindex == x
    {
      var k :| 0 <= k < b && rest[k] == s;
      if s.ifindex != x {
        CountFront(rest, x, k);
        SmallRemainder(CountIf(rest, x), b);
        assert false;
      }
    }
  }

  /** Cutting a block of one interface off keeps the question whether all have whole blocks. */
  lemma CutBlock(rest: seq<QueueSlot>, b: nat, x: nat)
    requires 0 < b <= |rest| && OneInterface(rest[..b], x)
    ensures WholeBlocks(rest, b) <==> WholeBlocks(rest[b..], b)
  {
    hide CountIf;
    forall i
      ensures CountIf(rest, i) % b == 0 <==> CountIf(rest[b..], i) % b == 0
    {
      assert rest == rest[..b] + rest[b..];
      CountConcat(rest[..b], rest[b..], i);
      CountUniform(rest[..b], x, i);
      OneMoreBlock(CountIf(rest[b..], i), b);
    }
  }

  // ---------------------------------------------------------------- plans

  /** All queues of the plans, in order. */
  function Queues(plans: seq<Plan>): seq<QueueSlot>
  {
    if plans == [] then [] else Queues(plans[..|plans| - 1]) + plans[|plans| - 1].slots
  }

  lemma QueuesAppendOne(plans: seq<Plan>, p: Plan)
    ensures Queues(plans + [p]) == Queues(plans) + p.slots
  {
    assert (plans + [p])[..|plans|] == plans;
  }

  lemma {:induction false} QueuesAppend(a: seq<Plan>, b: seq<Plan>)
    ensures Queues(a + b) == Queues(a) + Queues(b)
    decreases |b|
  {
    hide Queues;
    NoQueuesIn();
    if b == [] {
      assert a + b == a;
    } else {
      var front, last := b[..|b| - 1], b[|b| - 1];
      QueuesAppend(a, front);
      QueuesAppendOne(a + front, last);
      QueuesAppendOne(front, last);
      assert a + b == (a + front) + [last] && b == front + [last];
      Associates(Queues(a), Queues(front), last.slots);
    }
  }

  lemma NoQueuesIn()
    ensures Queues([]) == []
  {
  }

  lemma Associates<T>(a: seq<T>, b: seq<T>, c: seq<T>)
    ensures (a + b) + c == a + (b + c)
  {
  }

  /** A plan drives a non-empty block of one interface and one node. */
  ghost predicate PlanOk(p: Plan)
  {
    p.slots != [] && forall s :: s in p.slots ==> s.ifindex == p.ifindex && s.node == p.node
  }

  /** The plans of one node: equal blocks, cores of that node, one core each when there
      are enough and no strategy was given. */
  ghost predicate NodePlansOk(plans: seq<Plan>, node: nat, perBlock: nat, cores: Cores)
  {
    && (forall i :: 0 <= i < |plans| ==>
        PlanOk(plans[i]) && plans[i].node == node && |plans[i].slots| == perBlock && plans[i].cpu in cores.of(node))
    && (forall i, j :: 0 <= i < j < |plans| ==> plans[i].ifindex <= plans[j].ifindex)
    && (cores.assign.None? && EnoughCores(cores, node, |plans|) ==>
          forall i, j :: 0 <= i < j < |plans| ==> plans[i].cpu != plans[j].cpu)
  }

  /** A node has a core of its own for each worker. */
  ghost predicate EnoughCores(cores: Cores, node: nat, workers: nat)
  {
    Distinct(cores.of(node)) && workers <= |cores.of(node)|
  }

  ghost predicate Distinct(s: seq<nat>) { forall i, j :: 0 <= i < j < |s| ==> s[i] != s[j] }

  function Times(blocks: nat, per: nat): nat { blocks * per }

  lemma TimesLess(blocks: nat, per: nat)
    requires blocks > 0
    ensures Times(blocks, per) == per + Times(blocks - 1, per)
  {
    assert blocks * per == (blocks - 1) * per + per;
  }

  lemma EvenSplit(total: nat, parts: nat)
    requires parts > 0 && total % parts == 0
    ensures total == Times(parts, total / parts) && Times(0, total / parts) == 0 && (total > 0 ==> total / parts > 0)
  {
  }

  /** Whether worker `index` of a node gets a core. */
  predicate CoreFits(node: nat, index: nat, cores: Cores)
  {
    match cores.assign
    case Some(assign) => assign(node, cores.of(node), index) in cores.of(node)
    case None => cores.of(node) != []
  }

  /** When the queues of one node can be planned: equal blocks, each interface a whole
      number of them, and a core for every worker. */
  ghost predicate NodeFits(nodeSlots: seq<QueueSlot>, node: nat, workers: nat, cores: Cores)
    requires workers >= 1 && nodeSlots != []
  {
    && |nodeSlots| % workers == 0 && |nodeSlots| / workers > 0 && WholeBlocks(nodeSlots, |nodeSlots| / workers)
    && forall k :: 0 <= k < workers ==> CoreFits(node, k, cores)
  }

  /** The core of worker `index` of a node: the strategy's choice, or the cores in turn. */
  predicate IsCore(cpu: nat, node: nat, index: nat, cores: Cores)
  {
    match cores.assign
    case Some(assign) => cpu == assign(node, cores.of(node), index)
    case None => cores.of(node) != [] && cpu == cores.of(node)[index % |cores.of(node)|]
  }

  /** The core of worker `index` on a node. */
  method ChooseCore(node: nat, index: nat, cores: Cores) returns (r: Result<nat>)
    ensures r.Ok? <==> CoreFits(node, index, cores)
    ensures r.Err? ==> r.error != NoQueues && r.error != NoThreads && r.error != ThreadsNotDivisible
    ensures r.Ok? ==> r.value in cores.of(node) && IsCore(r.value, node, index, cores)
  {
    var own := cores.of(node);
    match cores.assign {
      case Some(assign) =>
        var chosen := assign(node, own, index);
        return if chosen in own then Ok(chosen) else Err(ForeignCore);
      case None =>
        if own == [] { return Err(NoCores); }
        return Ok(own[index % |own|]);
    }
  }

  /** One node: its queues, sorted by interface, cut into `threadsPerNode` blocks. */
  method PlanNode(node: nat, nodeSlots: seq<QueueSlot>, threadsPerNode: nat, cores: Cores)
    returns (r: Result<seq<Plan>>)
    requires threadsPerNode >= 1 && nodeSlots != [] && forall s :: s in nodeSlots ==> s.node == node
    ensures r.Ok? <==> NodeFits(nodeSlots, node, threadsPerNode, cores)
    ensures r.Ok? ==> |r.value| == threadsPerNode && Queues(r.value) == SortByIf(nodeSlots)
    ensures r.Ok? ==> NodePlansOk(r.value, node, |nodeSlots| / threadsPerNode, cores)
    ensures r.Ok? ==> InCoreOrder(r.value, node, cores)
    ensures r.Err? ==> r.error != NoQueues && r.error != NoThreads && r.error != ThreadsNotDivisible
  {
    hide Queues, NodePlansOk, Times, SortByIf, CountIf, WholeBlocks, CoreFits;
    var slots := SortByIf(nodeSlots);
    SortKeeps(nodeSlots);
    SortSorts(nodeSlots);
    if |slots| % threadsPerNode != 0 { return Err(QueuesNotDivisible); }
    var perBlock := |slots| / threadsPerNode;
    EvenSplit(|slots|, threadsPerNode);
    NoPlans(node, perBlock, cores);
    SameBlocks(nodeSlots, slots, perBlock);
    var rest := slots;
    var plans: seq<Plan> := [];
    var k := 0;
    while k < threadsPerNode
      invariant 0 <= k <= threadsPerNode && |plans| == k
      invariant Queues(plans) + rest == slots && |rest| == Times(threadsPerNode - k, perBlock)
      invariant NodePlansOk(plans, node, perBlock, cores) && InCoreOrder(plans, node, cores)
      invariant SortedByIf(rest) && (WholeBlocks(nodeSlots, perBlock) <==> WholeBlocks(rest, perBlock))
      invariant forall i :: 0 <= i < k ==> CoreFits(node, i, cores)
      invariant forall i, j :: 0 <= i < k && 0 <= j < |rest| ==> plans[i].ifindex <= rest[j].ifindex
    {
      TimesLess(threadsPerNode - k, perBlock);
      var block := rest[..perBlock];
      BlockOfNode(nodeSlots, slots, Queues(plans), rest, perBlock, node);
      var ifindex := block[0].ifindex;
      if WholeBlocks(rest, perBlock) { FirstBlock(rest, perBlock); }
      if !OneInterface(block, ifindex) { return Err(BlockSpansInterfaces); }
      var core := ChooseCore(node, k, cores);
      if core.Err? { return Err(core.error); }
      var plan := Plan(core.value, node, ifindex, block);
      OneMorePlan(plans, plan, node, perBlock, cores);
      QueuesAppendOne(plans, plan);
      assert Queues(plans) + block + rest[perBlock..] == Queues(plans) + rest;
      CutBlock(rest, perBlock, ifindex);
      plans := plans + [plan];
      rest := rest[perBlock..];
      k := k + 1;
    }
    NoBlocks(perBlock);
    assert rest == [] && Queues(plans) + [] == Queues(plans);
    return Ok(plans);
  }

  lemma NoBlocks(perBlock: nat)
    requires perBlock > 0
    ensures WholeBlocks([], perBlock) && Times(0, perBlock) == 0
  {
  }

  lemma SameBlocks(a: seq<QueueSlot>, b: seq<QueueSlot>, perBlock: nat)
    requires perBlock > 0 && forall i :: CountIf(b, i) == CountIf(a, i)
    ensures WholeBlocks(a, perBlock) <==> WholeBlocks(b, perBlock)
  {
    hide CountIf;
    assert WholeBlocks(a, perBlock) ==> forall i :: CountIf(a, i) % perBlock == 0 && CountIf(b, i) == CountIf(a, i);
    assert WholeBlocks(b, perBlock) ==> forall i :: CountIf(b, i) % perBlock == 0 && CountIf(b, i) == CountIf(a, i);
  }

  /** Worker `i` of the node has the core of number `i`. */
  ghost predicate InCoreOrder(plans: seq<Plan>, node: nat, cores: Cores)
  {
    forall i :: 0 <= i < |plans| ==> IsCore(plans[i].cpu, node, i, cores)
  }

  lemma NoPlans(node: nat, perBlock: nat, cores: Cores)
    ensures NodePlansOk([], node, perBlock, cores) && InCoreOrder([], node, cores) && Queues([]) == []
  {
  }

  lemma OneMorePlan(plans: seq<Plan>, plan: Plan, node: nat, perBlock: nat, cores: Cores)
    requires NodePlansOk(plans, node, perBlock, cores) && InCoreOrder(plans, node, cores)
    requires PlanOk(plan) && plan.node == node && |plan.slots| == perBlock && plan.cpu in cores.of(node)
    requires IsCore(plan.cpu, node, |plans|, cores) && forall i :: 0 <= i < |plans| ==> plans[i].ifindex <= plan.ifindex
    ensures NodePlansOk(plans + [plan], node, perBlock, cores) && InCoreOrder(plans + [plan], node, cores)
  {
    hide IsCore, PlanOk;
    if cores.assign.None? && EnoughCores(cores, node, |plans| + 1) {
      OwnCore(plan.cpu, node, |plans|, cores);
      forall i | 0 <= i < |plans|
        ensures plans[i].cpu == cores.of(node)[i]
      {
        OwnCore(plans[i].cpu, node, i, cores);
      }
    }
  }

  /** While there are enough cores, worker `index` has core `index`. */
  lemma OwnCore(cpu: nat, node: nat, index: nat, cores: Cores)
    requires IsCore(cpu, node, index, cores) && cores.assign.None? && index < |cores.of(node)|
    ensures cpu == cores.of(node)[index]
  {
    DivModUnique(index, |cores.of(node)|, 0, index);
  }

  predicate OneInterface(block: seq<QueueSlot>, ifindex: nat) { forall s :: s in block ==> s.ifindex == ifindex }

  lemma BlockOfNode(nodeSlots: seq<QueueSlot>, slots: seq<QueueSlot>, done: seq<QueueSlot>, rest: seq<QueueSlot>,
                    perBlock: nat, node: nat)
    requires multiset(slots) == multiset(nodeSlots) && slots == done + rest && perBlock <= |rest|
    requires forall s :: s in nodeSlots ==> s.node == node
    ensures forall s :: s in rest[..perBlock] ==> s.node == node
  {
    forall s | s in rest[..perBlock]
      ensures s.node == node
    {
      assert s in slots && s in multiset(slots) && s in multiset(nodeSlots);
    }
  }

  // ---------------------------------------------------------------- all nodes

  /** Plans grouped by node in increasing order, `perNode` of them each. */
  ghost predicate AllPlansOk(plans: seq<Plan>, perNode: nat, cores: Cores)
  {
    && (forall i :: 0 <= i < |plans| ==> PlanOk(plans[i]) && plans[i].cpu in cores.of(plans[i].node))
    && (forall i, j :: 0 <= i < j < |plans| && plans[i].node == plans[j].node ==>
        |plans[i].slots| == |plans[j].slots| && plans[i].ifindex <= plans[j].ifindex)
    && (cores.assign.None? ==>
          forall i, j :: 0 <= i < j < |plans| && plans[i].node == plans[j].node ==>
            EnoughCores(cores, plans[i].node, perNode) ==> plans[i].cpu != plans[j].cpu)
    && (forall i, j :: 0 <= i < j < |plans| ==> plans[i].node <= plans[j].node)
    && (forall i :: 0 <= i < |plans| ==> CountOn(plans, plans[i].node) == perNode)
  }

  /** Plan `i` has the core of its number among the plans of its node. */
  ghost predicate CoresInTurn(plans: seq<Plan>, perNode: nat, cores: Cores)
    requires perNode >= 1
  {
    forall i :: 0 <= i < |plans| ==> IsCore(plans[i].cpu, plans[i].node, i % perNode, cores)
  }

  lemma CoresOfNextNode(plans: seq<Plan>, more: seq<Plan>, node: nat, perNode: nat, nodes: nat, cores: Cores)
    requires perNode >= 1 && |plans| == Times(nodes, perNode) && |more| == perNode && CoresInTurn(plans, perNode, cores)
    requires InCoreOrder(more, node, cores) && forall i :: 0 <= i < |more| ==> more[i].node == node
    ensures CoresInTurn(plans + more, perNode, cores)
  {
    hide IsCore;
    forall i | |plans| <= i < |plans + more|
      ensures IsCore((plans + more)[i].cpu, (plans + more)[i].node, i % perNode, cores)
    {
      DivModUnique(i, perNode, nodes, i - |plans|);
    }
  }

  /** The queues of every interface on every node that is not to be done are planned in claim order. */
  ghost predicate InClaimOrder(plans: seq<Plan>, claimed: seq<QueueSlot>, todo: set<nat>)
  {
    forall node, ifindex ::
      Of(Queues(plans), node, ifindex) == if node in todo then [] else Of(claimed, node, ifindex)
  }

  lemma NothingInOrder(claimed: seq<QueueSlot>)
    ensures InClaimOrder([], claimed, Nodes(claimed))
  {
    forall node, ifindex | node !in Nodes(claimed)
      ensures Of(claimed, node, ifindex) == []
    {
      OfNothing(claimed, node, ifindex);
    }
  }

  lemma NodeInOrder(plans: seq<Plan>, more: seq<Plan>, claimed: seq<QueueSlot>, todo: set<nat>, node: nat)
    requires InClaimOrder(plans, claimed, todo) && node in todo && Queues(more) == SortByIf(OnNode(claimed, node))
    ensures InClaimOrder(plans + more, claimed, todo - {node})
  {
    hide Queues, SortByIf, OnNode;
    QueuesAppend(plans, more);
    forall n, ifindex
      ensures Of(Queues(plans + more), n, ifindex) == if n in todo - {node} then [] else Of(claimed, n, ifindex)
    {
      OfConcat(Queues(plans), Queues(more), n, ifindex);
      SortStable(OnNode(claimed, node), n, ifindex);
      if n == node {
        OfOnNode(claimed, node, ifindex);
      } else {
        OfNothing(OnNode(claimed, node), n, ifindex);
      }
    }
  }

  /** Plans of one node. */
  function CountOn(plans: seq<Plan>, node: nat): nat
  {
    if plans == [] then 0
    else CountOn(plans[..|plans| - 1], node) + if plans[|plans| - 1].node == node then 1 else 0
  }

  lemma {:induction false} CountOnAppend(a: seq<Plan>, b: seq<Plan>, node: nat)
    ensures CountOn(a + b, node) == CountOn(a, node) + CountOn(b, node)
    decreases |b|
  {
    if b == [] {
      assert a + b == a;
    } else {
      assert (a + b)[..|a + b| - 1] == a + b[..|b| - 1];
      CountOnAppend(a, b[..|b| - 1], node);
    }
  }

  lemma {:induction false} CountOnUniform(plans: seq<Plan>, node: nat, same: bool)
    requires forall i :: 0 <= i < |plans| ==> (plans[i].node == node) == same
    ensures CountOn(plans, node) == if same then |plans| else 0
  {
    if plans != [] { CountOnUniform(plans[..|plans| - 1], node, same); }
  }

  lemma JoinNode(plans: seq<Plan>, more: seq<Plan>, node: nat, perNode: nat, perBlock: nat, cores: Cores)
    requires AllPlansOk(plans, perNode, cores) && NodePlansOk(more, node, perBlock, cores) && |more| == perNode
    requires forall i :: 0 <= i < |plans| ==> plans[i].node < node
    ensures AllPlansOk(plans + more, perNode, cores)
  {
    hide CountOn, PlanOk;
    forall i | 0 <= i < |plans + more|
      ensures CountOn(plans + more, (plans + more)[i].node) == perNode
    {
      var at := (plans + more)[i].node;
      CountOnAppend(plans, more, at);
      CountOnUniform(more, at, at == node);
      if at == node { CountOnUniform(plans, at, false); }
    }
  }

  ghost predicate IsLeast(m: nat, nodes: set<nat>) { m in nodes && forall x :: x in nodes ==> m <= x }

  function Least(nodes: set<nat>): (m: nat)
    requires nodes != {}
    ensures m in nodes && forall x :: x in nodes ==> m <= x
  {
    LeastExists(nodes);
    var m :| m in nodes && forall x :: x in nodes ==> m <= x;
    m
  }

  lemma {:induction false} LeastExists(nodes: set<nat>)
    requires nodes != {}
    ensures exists m :: IsLeast(m, nodes)
    decreases nodes
  {
    var y :| y in nodes;
    if nodes == {y} {
      assert IsLeast(y, nodes);
    } else {
      var rest := nodes - {y};
      LeastExists(rest);
      var m :| IsLeast(m, rest);
      LeastOfTwo(nodes, y, m);
    }
  }

  lemma LeastOfTwo(nodes: set<nat>, y: nat, m: nat)
    requires y in nodes && IsLeast(m, nodes - {y})
    ensures IsLeast(if y <= m then y else m, nodes)
  {
    forall x | x in nodes && x != y
      ensures m <= x
    {
      assert x in nodes - {y};
    }
  }

  /** When the claimed queues can be split among this many workers. */
  ghost predicate Splits(claimed: seq<QueueSlot>, threads: nat, cores: Cores)
  {
    && claimed != [] && threads > 0 && |Nodes(claimed)| > 0 && threads % |Nodes(claimed)| == 0
    && threads / |Nodes(claimed)| > 0 && AllNodesFit(claimed, threads / |Nodes(claimed)|, cores)
  }

  ghost predicate AllNodesFit(claimed: seq<QueueSlot>, perNode: nat, cores: Cores)
    requires perNode >= 1
  {
    forall node :: node in Nodes(claimed) ==>
      OnNode(claimed, node) != [] && NodeFits(OnNode(claimed, node), node, perNode, cores)
  }

  /** The partition part of `build`, which succeeds exactly when the queues can be split
      evenly: the workers over the nodes, each node's queues over its workers and each
      interface's queues on a node over whole blocks, with a core for everyone.  It then
      yields exactly `threads` plans; their queues are, as a multiset, the claimed ones;
      each plan is non-empty, on one interface and one node, with a core of that node;
      plans of a node are equally large and, under the default strategy and with enough
      distinct cores, on distinct cores. */
  method Partition(claimed: seq<QueueSlot>, threadsOption: Option<nat>, cores: Cores) returns (r: Result<seq<Plan>>)
    ensures r.Ok? <==> Splits(claimed, if threadsOption.Some? then threadsOption.value else |claimed|, cores)
    ensures r.Ok? ==> |r.value| == (if threadsOption.Some? then threadsOption.value else |claimed|)
    ensures r.Ok? ==> multiset(Queues(r.value)) == multiset(claimed)
    ensures r.Ok? ==>
      |Nodes(claimed)| > 0
        && var perNode := |r.value| / |Nodes(claimed)|;
      && perNode >= 1 && AllPlansOk(r.value, perNode, cores) && CoresInTurn(r.value, perNode, cores)
    ensures r.Ok? ==> forall node, ifindex :: Of(Queues(r.value), node, ifindex) == Of(claimed, node, ifindex)
    ensures r == Err(NoQueues) <==> claimed == []
    ensures r == Err(NoThreads) <==> claimed != [] && threadsOption == Some(0)
    ensures r == Err(ThreadsNotDivisible) <==>
      var threads := if threadsOption.Some? then threadsOption.value else |claimed|;
      claimed != [] && threads > 0 && |Nodes(claimed)| > 0 && threads % |Nodes(claimed)| != 0
  {
    hide AllPlansOk, NodePlansOk, Queues, Times, OnNode, Outside, Nodes, AllNodesFit, CoresInTurn, Of;
    if claimed == [] { return Err(NoQueues); }
    var threads := if threadsOption.Some? then threadsOption.value else |claimed|;
    if threads == 0 { return Err(NoThreads); }
    var nodes := Nodes(claimed);
    SomeNode(claimed);
    if threads % |nodes| != 0 { return Err(ThreadsNotDivisible); }
    var perNode := threads / |nodes|;
    EvenSplit(threads, |nodes|);
    r := PlanAll(claimed, perNode, cores);
  }

  /** Every node in increasing order. */
  method PlanAll(claimed: seq<QueueSlot>, perNode: nat, cores: Cores) returns (r: Result<seq<Plan>>)
    requires claimed != [] && perNode >= 1
    ensures r.Ok? <==> AllNodesFit(claimed, perNode, cores)
    ensures r.Err? ==> r.error != NoQueues && r.error != NoThreads && r.error != ThreadsNotDivisible
    ensures r.Ok? ==> |r.value| == Times(|Nodes(claimed)|, perNode) && multiset(Queues(r.value)) == multiset(claimed)
    ensures r.Ok? ==> AllPlansOk(r.value, perNode, cores) && CoresInTurn(r.value, perNode, cores)
    ensures r.Ok? ==> InClaimOrder(r.value, claimed, {})
  {
    hide AllPlansOk, NodePlansOk, Queues, Times, OnNode, Outside, Nodes, NodeFits, CoresInTurn, InClaimOrder;
    hide SortByIf, InCoreOrder;
    NothingInOrder(claimed);
    NoneInTurn(perNode, cores);
    var nodes := Nodes(claimed);
    SomeNode(claimed);
    NothingPlanned(perNode, cores);
    OutsideAll(claimed, nodes);
    var plans: seq<Plan> := [];
    var todo := nodes;
    ghost var done := 0;
    while todo != {}
      invariant todo <= nodes && |plans| + Times(|todo|, perNode) == Times(|nodes|, perNode)
      invariant |plans| == Times(done, perNode) && CoresInTurn(plans, perNode, cores)
      invariant InClaimOrder(plans, claimed, todo)
      invariant multiset(Queues(plans)) == multiset(Outside(claimed, todo))
      invariant forall i, node :: 0 <= i < |plans| && node in todo ==> plans[i].node < node
      invariant AllPlansOk(plans, perNode, cores)
      invariant forall node :: node in nodes && node !in todo ==>
        OnNode(claimed, node) != [] && NodeFits(OnNode(claimed, node), node, perNode, cores)
      decreases |todo|
    {
      var node := Least(todo);
      NodeHasQueue(claimed, node);
      var planned := PlanNode(node, OnNode(claimed, node), perNode, cores);
      if planned.Err? { return Err(planned.error); }
      SortKeeps(OnNode(claimed, node));
      JoinNode(plans, planned.value, node, perNode, |OnNode(claimed, node)| / perNode, cores);
      QueuesAppend(plans, planned.value);
      OneMoreNode(claimed, todo, node);
      NodesOfPlans(planned.value, node, |OnNode(claimed, node)| / perNode, cores);
      TimesLess(|todo|, perNode);
      TimesLess(done + 1, perNode);
      CoresOfNextNode(plans, planned.value, node, perNode, done, cores);
      NodeInOrder(plans, planned.value, claimed, todo, node);
      plans := plans + planned.value;
      todo := todo - {node};
      done := done + 1;
    }
    OutsideAll(claimed, {});
    return Ok(plans);
  }

  lemma SomeNode(claimed: seq<QueueSlot>)
    requires claimed != []
    ensures |Nodes(claimed)| > 0 && forall s :: s in claimed ==> s.node in Nodes(claimed)
  {
    assert claimed[0].node in Nodes(claimed);
  }

  lemma NothingPlanned(perNode: nat, cores: Cores)
    ensures AllPlansOk([], perNode, cores) && Queues([]) == [] && Times(0, perNode) == 0
  {
  }

  lemma NoneInTurn(perNode: nat, cores: Cores)
    requires perNode >= 1
    ensures CoresInTurn([], perNode, cores)
  {
  }

  lemma NodesOfPlans(plans: seq<Plan>, node: nat, perBlock: nat, cores: Cores)
    requires NodePlansOk(plans, node, perBlock, cores)
    ensures forall i :: 0 <= i < |plans| ==> plans[i].node == node
  {
  }
}
