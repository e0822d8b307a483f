/**
 * The registry of active allocations: the single record of which job holds
 * which nodes. It keeps two tables, node name to the allocations holding
 * that node and job id to the job's allocation. Each public call is one
 * atomic step (the source guards them with a read/write lock), so each is
 * modelled as one state transition.
 */
module AllocationRegistry {
  import opened Wrappers
  import opened Nodes
  import Jobs
  import Values

  type JobId = Option<string>

  /** A job bound to nodes. Building one claims nothing; only `Add` does. */
  datatype Allocation = Allocation(job: Jobs.Schedulable, nodes: seq<Node>)

  function JobIdOf(a: Allocation): JobId {
    Jobs.IdOf(a.job)
  }

  /**
   * `nodeAllocations` is the node table. `jobAllocations` is the job table as
   * the list of its values in insertion order (the order `each` yields);
   * the key of each entry is its allocation's job id.
   */
  datatype Registry = Registry(nodeAllocations: map<string, seq<Allocation>>, jobAllocations: seq<Allocation>)

  /** What `AllocationConflict` carries: the node or the job that clashed. */
  datatype Conflict = NodeConflict(node: Node) | JobConflict(job: Jobs.Schedulable)

  /** The registry after an `add`, and the conflict it raised, if any. */
  datatype AddOutcome = AddOutcome(registry: Registry, conflict: Option<Conflict>)

  const Empty: Registry := Registry(map[], [])

  // ---------------------------------------------------------------------------
  // Lookups

  /** `for_node`: the allocations holding a node; an unknown node holds none. */
  function ForNode(reg: Registry, name: string): (r: seq<Allocation>)
    ensures name !in reg.nodeAllocations ==> r == []
  {
    if name in reg.nodeAllocations then reg.nodeAllocations[name] else []
  }

  /** The first allocation of the list registered under job id `id`. */
  function Lookup(list: seq<Allocation>, id: JobId): (r: Option<Allocation>)
    ensures r.Some? ==> r.value in list && JobIdOf(r.value) == id
    ensures r.None? <==> forall a :: a in list ==> JobIdOf(a) != id
  {
    if |list| == 0 then None
    else if JobIdOf(list[0]) == id then Some(list[0])
    else Lookup(list[1..], id)
  }

  /** `for_job`: the allocation registered for a job id, `nil` when there is none. */
  function ForJob(reg: Registry, id: JobId): (r: Option<Allocation>)
    ensures r.Some? ==> r.value in reg.jobAllocations && JobIdOf(r.value) == id
    ensures r.None? <==> forall a :: a in reg.jobAllocations ==> JobIdOf(a) != id
  {
    Lookup(reg.jobAllocations, id)
  }

  /** `size`: the number of entries of the job table. */
  function Size(reg: Registry): nat {
    |reg.jobAllocations|
  }

  /** `each`: the registered allocations, in the order they were added. */
  function Each(reg: Registry): seq<Allocation> {
    reg.jobAllocations
  }

  /** `Job#allocated?`: whether the registry holds an allocation for the job's id. */
  predicate Allocated(reg: Registry, job: Jobs.Schedulable) {
    ForJob(reg, Jobs.IdOf(job)).Some?
  }

  /** The job ids of the job table. */
  function JobIds(list: seq<Allocation>): (r: set<JobId>)
    ensures forall id :: id in r <==> exists a :: a in list && JobIdOf(a) == id
  {
    if |list| == 0 then {}
    else
      assert forall a :: a in list <==> a == list[0] || a in list[1..];
      {JobIdOf(list[0])} + JobIds(list[1..])
  }

  /** Invariant B: a job id has at most one entry in the job table. */
  predicate UniqueIds(list: seq<Allocation>) {
    forall i, j :: 0 <= i < j < |list| ==> JobIdOf(list[i]) != JobIdOf(list[j])
  }

  /** Distinct ids, read off the head and the tail of a list. */
  lemma UniqueIdsCons(x: Allocation, rest: seq<Allocation>)
    ensures UniqueIds([x] + rest) <==> (forall y :: y in rest ==> JobIdOf(y) != JobIdOf(x)) && UniqueIds(rest)
  {
    var l := [x] + rest;
    assert forall i :: 0 <= i < |rest| ==> l[i + 1] == rest[i];
    if UniqueIds(l) {
      forall y | y in rest
        ensures JobIdOf(y) != JobIdOf(x)
      {
        var k :| 0 <= k < |rest| && rest[k] == y;
        assert l[k + 1] == y && l[0] == x;
      }
      forall i, j | 0 <= i < j < |rest|
        ensures JobIdOf(rest[i]) != JobIdOf(rest[j])
      {
        assert l[i + 1] == rest[i] && l[j + 1] == rest[j];
      }
    }
    if (forall y :: y in rest ==> JobIdOf(y) != JobIdOf(x)) && UniqueIds(rest) {
      forall i, j | 0 <= i < j < |l|
        ensures JobIdOf(l[i]) != JobIdOf(l[j])
      {
        if i == 0 {
          assert l[j] == rest[j - 1] && rest[j - 1] in rest;
        } else {
          assert l[i] == rest[i - 1] && l[j] == rest[j - 1];
        }
      }
    }
  }

  lemma {:induction false} UniqueIdsCount(list: seq<Allocation>)
    requires UniqueIds(list)
    ensures |JobIds(list)| == |list|
  {
    if |list| > 0 {
      assert list == [list[0]] + list[1..];
      UniqueIdsCons(list[0], list[1..]);
      UniqueIdsCount(list[1..]);
    }
  }

  /** `size` counts the distinct job ids holding an allocation. */
  lemma SizeCountsJobs(reg: Registry)
    requires UniqueIds(reg.jobAllocations)
    ensures Size(reg) == |JobIds(reg.jobAllocations)|
  {
    UniqueIdsCount(reg.jobAllocations);
  }

  /** With distinct ids, looking up an entry's own id finds that entry. */
  lemma {:induction false} LookupFindsEntry(list: seq<Allocation>, a: Allocation)
    requires UniqueIds(list) && a in list
    ensures Lookup(list, JobIdOf(a)) == Some(a)
  {
    assert list == [list[0]] + list[1..];
    UniqueIdsCons(list[0], list[1..]);
    if list[0] != a {
      assert a in list[1..];
      LookupFindsEntry(list[1..], a);
    }
  }

  /** `each` visits every registered allocation once, and `for_job` of its id finds it. */
  lemma EachAgreesWithForJob(reg: Registry)
    requires UniqueIds(reg.jobAllocations)
    ensures |Each(reg)| == Size(reg)
    ensures forall a :: a in Each(reg) ==> ForJob(reg, JobIdOf(a)) == Some(a)
    ensures forall id :: ForJob(reg, id).Some? ==> ForJob(reg, id).value in Each(reg)
  {
    forall a | a in Each(reg)
      ensures ForJob(reg, JobIdOf(a)) == Some(a)
    {
      LookupFindsEntry(reg.jobAllocations, a);
    }
  }

  // ---------------------------------------------------------------------------
  // add

  predicate Busy(reg: Registry, name: string) {
    ForNode(reg, name) != []
  }

  /** The position of the first node, from `i` on, that is already held. */
  function FirstBusy(reg: Registry, nodes: seq<Node>, i: nat): (r: Option<nat>)
    requires i <= |nodes|
    ensures r.Some? ==> i <= r.value < |nodes| && Busy(reg, nodes[r.value].name)
    ensures r.Some? ==> forall j :: i <= j < r.value ==> !Busy(reg, nodes[j].name)
    ensures r.None? ==> forall j :: i <= j < |nodes| ==> !Busy(reg, nodes[j].name)
    decreases |nodes| - i
  {
    if i == |nodes| then None
    else if Busy(reg, nodes[i].name) then Some(i)
    else FirstBusy(reg, nodes, i + 1)
  }

  /**
   * Reading the node table inserts an empty list for an unknown name (the
   * table is a `Hash` with a default block). These are the entries the
   * checks of `add` leave behind.
   */
  function Vivify(m: map<string, seq<Allocation>>, nodes: seq<Node>): (r: map<string, seq<Allocation>>)
    ensures forall name :: name in r <==> name in m || name in Names(nodes)
    ensures forall name :: name in m ==> r[name] == m[name]
    ensures forall name :: name in r && name !in m ==> r[name] == []
    decreases |nodes|
  {
    if |nodes| == 0 then m
    else
      assert forall name :: name in Names(nodes) <==> name == nodes[0].name || name in Names(nodes[1..]);
      Vivify(if nodes[0].name in m then m else m[nodes[0].name := []], nodes[1..])
  }

  /** Vivified entries are empty, so no lookup can tell them apart from absent ones. */
  lemma VivifyUnobservable(reg: Registry, nodes: seq<Node>, name: string)
    ensures ForNode(reg.(nodeAllocations := Vivify(reg.nodeAllocations, nodes)), name) == ForNode(reg, name)
  {
  }

  /** `k` copies of `a`. */
  function Repeat(a: Allocation, k: nat): (r: seq<Allocation>)
    ensures |r| == k
    ensures forall x :: x in r ==> x == a
  {
    if k == 0 then [] else [a] + Repeat(a, k - 1)
  }

  /** How many of the nodes carry the name. */
  function CountName(nodes: seq<Node>, name: string): (r: nat)
    ensures r > 0 <==> name in Names(nodes)
    ensures DistinctNames(nodes) ==> r <= 1
  {
    if |nodes| == 0 then 0
    else
      assert forall x :: x in Names(nodes) <==> x == nodes[0].name || x in Names(nodes[1..]);
      assert DistinctNames(nodes) ==> forall k :: 0 <= k < |nodes[1..]| ==> Names(nodes[1..])[k] != nodes[0].name;
      (if nodes[0].name == name then 1 else 0) + CountName(nodes[1..], name)
  }

  /** `@node_allocations[node.name] << allocation` for every node, in order. */
  function AppendEach(m: map<string, seq<Allocation>>, nodes: seq<Node>, a: Allocation): (r: map<string, seq<Allocation>>)
    requires forall n :: n in nodes ==> n.name in m
    ensures r.Keys == m.Keys
    decreases |nodes|
  {
    if |nodes| == 0 then m
    else AppendEach(m[nodes[0].name := m[nodes[0].name] + [a]], nodes[1..], a)
  }

  /** Each node's list gains one copy of the allocation per occurrence of its name. */
  lemma {:induction false} AppendEachContents(m: map<string, seq<Allocation>>, nodes: seq<Node>, a: Allocation, name: string)
    requires forall n :: n in nodes ==> n.name in m
    requires name in m
    ensures AppendEach(m, nodes, a)[name] == m[name] + Repeat(a, CountName(nodes, name))
    decreases |nodes|
  {
    if |nodes| == 0 {
      assert m[name] + [] == m[name];
    } else {
      var name0 := nodes[0].name;
      var m' := m[name0 := m[name0] + [a]];
      var rest := nodes[1..];
      assert forall n :: n in rest ==> n.name in m' by {
        assert forall n :: n in rest ==> n in nodes;
      }
      AppendEachContents(m', rest, a, name);
      CountNameCons(nodes, name);
      if name == name0 {
        RepeatCons(m[name], a, CountName(rest, name));
      }
    }
  }

  lemma CountNameCons(nodes: seq<Node>, name: string)
    requires |nodes| > 0
    ensures CountName(nodes, name) == (if nodes[0].name == name then 1 else 0) + CountName(nodes[1..], name)
  {
  }

  lemma RepeatCons(s: seq<Allocation>, a: Allocation, k: nat)
    ensures (s + [a]) + Repeat(a, k) == s + Repeat(a, k + 1)
  {
    assert Repeat(a, k + 1) == [a] + Repeat(a, k);
  }

  lemma AppendEachAll(m: map<string, seq<Allocation>>, nodes: seq<Node>, a: Allocation)
    requires forall n :: n in nodes ==> n.name in m
    ensures forall name :: name in m ==> AppendEach(m, nodes, a)[name] == m[name] + Repeat(a, CountName(nodes, name))
  {
    forall name | name in m
      ensures AppendEach(m, nodes, a)[name] == m[name] + Repeat(a, CountName(nodes, name))
    {
      AppendEachContents(m, nodes, a, name);
    }
  }

  lemma NamesOfMembers(nodes: seq<Node>)
    ensures forall n :: n in nodes ==> n.name in Names(nodes)
  {
    forall n | n in nodes
      ensures n.name in Names(nodes)
    {
      var k :| 0 <= k < |nodes| && nodes[k] == n;
      assert Names(nodes)[k] == n.name;
    }
  }

  /**
   * `add(allocation)`: every node is checked in order and the first one
   * already held raises a conflict naming it; then a job id already holding
   * an allocation raises a conflict naming the job; only then is the
   * allocation appended under each node name and registered under its job id.
   */
  function Add(reg: Registry, a: Allocation): (r: AddOutcome)
    ensures r.conflict.Some? && r.conflict.value.NodeConflict? ==>
      r.conflict.value.node in a.nodes && Busy(reg, r.conflict.value.node.name)
    ensures r.conflict.Some? && r.conflict.value.NodeConflict? ==>
      exists k :: 0 <= k < |a.nodes| && r.conflict.value.node == a.nodes[k]
        && forall j :: 0 <= j < k ==> !Busy(reg, a.nodes[j].name)
    ensures (exists n :: n in a.nodes && Busy(reg, n.name)) <==> r.conflict.Some? && r.conflict.value.NodeConflict?
    ensures (forall n :: n in a.nodes ==> !Busy(reg, n.name)) && ForJob(reg, JobIdOf(a)).Some?
      <==> r.conflict == Some(JobConflict(a.job))
    ensures r.conflict.Some? ==> r.registry.jobAllocations == reg.jobAllocations
    ensures r.conflict.Some? ==> forall name :: ForNode(r.registry, name) == ForNode(reg, name)
    ensures r.conflict.None? ==> r.registry.jobAllocations == reg.jobAllocations + [a]
    ensures r.conflict.None? ==> forall n :: n in a.nodes ==> a in ForNode(r.registry, n.name)
    ensures r.conflict.None? ==> forall name :: name !in Names(a.nodes) ==> ForNode(r.registry, name) == ForNode(reg, name)
  {
    match FirstBusy(reg, a.nodes, 0)
    case Some(k) =>
      AddOutcome(reg.(nodeAllocations := Vivify(reg.nodeAllocations, a.nodes[..k + 1])), Some(NodeConflict(a.nodes[k])))
    case None =>
      var m := Vivify(reg.nodeAllocations, a.nodes);
      if ForJob(reg, JobIdOf(a)).Some? then
        AddOutcome(reg.(nodeAllocations := m), Some(JobConflict(a.job)))
      else
        NamesOfMembers(a.nodes);
        AppendEachAll(m, a.nodes, a);
        AddOutcome(Registry(AppendEach(m, a.nodes, a), reg.jobAllocations + [a]), None)
  }

  /** The registry a successful `add` leaves behind. */
  lemma AddSuccess(reg: Registry, a: Allocation)
    requires Add(reg, a).conflict.None?
    ensures ForJob(reg, JobIdOf(a)).None?
    ensures forall n :: n in a.nodes ==> !Busy(reg, n.name)
    ensures forall n :: n in a.nodes ==> n.name in Vivify(reg.nodeAllocations, a.nodes)
    ensures Add(reg, a).registry == Registry(AppendEach(Vivify(reg.nodeAllocations, a.nodes), a.nodes, a), reg.jobAllocations + [a])
  {
    NamesOfMembers(a.nodes);
  }

  /** A successful `add` makes `for_job` answer the allocation and leaves other job ids alone. */
  lemma AddThenForJob(reg: Registry, a: Allocation, id: JobId)
    requires Add(reg, a).conflict.None?
    ensures ForJob(Add(reg, a).registry, JobIdOf(a)) == Some(a)
    ensures id != JobIdOf(a) ==> ForJob(Add(reg, a).registry, id) == ForJob(reg, id)
  {
    LookupAppend(reg.jobAllocations, a, JobIdOf(a));
    LookupAppend(reg.jobAllocations, a, id);
  }

  /** Looking up in an extended list finds an earlier entry first. */
  lemma {:induction false} LookupAppend(list: seq<Allocation>, a: Allocation, id: JobId)
    ensures Lookup(list + [a], id) == if Lookup(list, id).Some? then Lookup(list, id) else if JobIdOf(a) == id then Some(a) else None
  {
    if |list| == 0 {
      assert [a][1..] == [];
    } else {
      assert (list + [a])[1..] == list[1..] + [a];
      LookupAppend(list[1..], a, id);
    }
  }

  // ---------------------------------------------------------------------------
  // delete

  /** `Array#delete`: every element equal to `a` is removed. */
  function RemoveAll(s: seq<Allocation>, a: Allocation): (r: seq<Allocation>)
    ensures forall x :: x in r <==> x in s && x != a
    ensures |r| <= |s|
  {
    if |s| == 0 then []
    else if s[0] == a then RemoveAll(s[1..], a)
    else [s[0]] + RemoveAll(s[1..], a)
  }

  /** `Hash#delete(id)` on the job table. */
  function RemoveId(list: seq<Allocation>, id: JobId): (r: seq<Allocation>)
    ensures forall x :: x in r <==> x in list && JobIdOf(x) != id
  {
    if |list| == 0 then []
    else if JobIdOf(list[0]) == id then RemoveId(list[1..], id)
    else [list[0]] + RemoveId(list[1..], id)
  }

  /** Removing an id no entry carries changes nothing. */
  lemma {:induction false} RemoveAbsentId(list: seq<Allocation>, id: JobId)
    requires forall x :: x in list ==> JobIdOf(x) != id
    ensures RemoveId(list, id) == list
  {
    if |list| > 0 {
      RemoveAbsentId(list[1..], id);
      assert list == [list[0]] + list[1..];
    }
  }

  /** Removing an id keeps the other entries in their order. */
  lemma {:induction false} RemoveIdAppend(list: seq<Allocation>, a: Allocation, id: JobId)
    ensures RemoveId(list + [a], id) == RemoveId(list, id) + (if JobIdOf(a) == id then [] else [a])
  {
    if |list| == 0 {
      assert [a][1..] == [];
    } else {
      assert (list + [a])[1..] == list[1..] + [a];
      RemoveIdAppend(list[1..], a, id);
      if JobIdOf(list[0]) != id {
        assert [list[0]] + (RemoveId(list[1..], id) + (if JobIdOf(a) == id then [] else [a]))
          == ([list[0]] + RemoveId(list[1..], id)) + (if JobIdOf(a) == id then [] else [a]);
      }
    }
  }

  /** Lookups of other ids are not affected by removing an id. */
  lemma {:induction false} LookupAfterRemove(list: seq<Allocation>, id: JobId, other: JobId)
    requires other != id
    ensures Lookup(RemoveId(list, id), other) == Lookup(list, other)
  {
    if |list| > 0 {
      LookupAfterRemove(list[1..], id, other);
      var rest := RemoveId(list[1..], id);
      if JobIdOf(list[0]) != id {
        assert ([list[0]] + rest)[0] == list[0];
        assert ([list[0]] + rest)[1..] == rest;
      }
    }
  }

  /** Removes `a` from the list of every node of `nodes` that the table knows; unknown names are skipped. */
  function RemoveFromNodes(m: map<string, seq<Allocation>>, nodes: seq<Node>, a: Allocation): (r: map<string, seq<Allocation>>)
    ensures r.Keys == m.Keys
    ensures forall name :: name in m && name !in Names(nodes) ==> r[name] == m[name]
    ensures forall name :: name in m && name in Names(nodes) ==> r[name] == RemoveAll(m[name], a)
    decreases |nodes|
  {
    if |nodes| == 0 then m
    else
      var name0 := nodes[0].name;
      var m' := if name0 in m then m[name0 := RemoveAll(m[name0], a)] else m;
      assert forall name :: name in Names(nodes) <==> name == name0 || name in Names(nodes[1..]);
      RemoveAllIdempotent(if name0 in m then m[name0] else [], a);
      RemoveFromNodes(m', nodes[1..], a)
  }

  lemma {:induction false} RemoveAllIdempotent(s: seq<Allocation>, a: Allocation)
    ensures RemoveAll(RemoveAll(s, a), a) == RemoveAll(s, a)
  {
    if |s| > 0 {
      RemoveAllIdempotent(s[1..], a);
      if s[0] != a {
        var rest := RemoveAll(s[1..], a);
        assert ([s[0]] + rest)[0] == s[0];
        assert ([s[0]] + rest)[1..] == rest;
      }
    }
  }

  /**
   * `delete(allocation)`: the job id's entry is removed, then the allocation
   * is removed from the list of each of its nodes the table knows.
   */
  function Delete(reg: Registry, a: Allocation): (r: Registry)
    ensures ForJob(r, JobIdOf(a)) == None
    ensures forall name :: name in Names(a.nodes) ==> ForNode(r, name) == RemoveAll(ForNode(reg, name), a)
    ensures forall name :: name !in Names(a.nodes) ==> ForNode(r, name) == ForNode(reg, name)
    ensures r.nodeAllocations.Keys == reg.nodeAllocations.Keys
    ensures forall x :: x in r.jobAllocations <==> x in reg.jobAllocations && JobIdOf(x) != JobIdOf(a)
  {
    Registry(RemoveFromNodes(reg.nodeAllocations, a.nodes, a), RemoveId(reg.jobAllocations, JobIdOf(a)))
  }

  /** After `delete`, none of the allocation's nodes lists it. */
  lemma DeleteFreesNodes(reg: Registry, a: Allocation, n: Node)
    requires n in a.nodes
    ensures a !in ForNode(Delete(reg, a), n.name)
  {
    NamesOfMembers(a.nodes);
  }

  /** `delete` leaves the lookups of other job ids as they were. */
  lemma DeleteKeepsOtherJobs(reg: Registry, a: Allocation, id: JobId)
    requires id != JobIdOf(a)
    ensures ForJob(Delete(reg, a), id) == ForJob(reg, id)
  {
    LookupAfterRemove(reg.jobAllocations, JobIdOf(a), id);
  }

  /** `allocated?` turns true with a successful `add` and false with a `delete` of the job's allocation. */
  lemma AllocatedFollowsAddAndDelete(reg: Registry, a: Allocation)
    ensures Add(reg, a).conflict.None? ==> Allocated(Add(reg, a).registry, a.job)
    ensures !Allocated(Delete(reg, a), a.job)
  {
    if Add(reg, a).conflict.None? {
      AddThenForJob(reg, a, JobIdOf(a));
    }
  }

  // ---------------------------------------------------------------------------
  // Invariants

  /** No node is held by more than one allocation. */
  predicate AtMostOnePerNode(reg: Registry) {
    forall name :: name in reg.nodeAllocations ==> |reg.nodeAllocations[name]| <= 1
  }

  /** Every registered allocation is listed under each of its nodes. */
  predicate Linked(reg: Registry) {
    forall x, n :: x in reg.jobAllocations && n in x.nodes ==> x in ForNode(reg, n.name)
  }

  predicate Inv(reg: Registry) {
    UniqueIds(reg.jobAllocations) && AtMostOnePerNode(reg) && Linked(reg)
  }

  /** No double booking: two registered allocations never share a node. */
  lemma NoDoubleBooking(reg: Registry, i: nat, j: nat, n: Node)
    requires Inv(reg)
    requires i < j < |reg.jobAllocations|
    ensures !(n in reg.jobAllocations[i].nodes && n in reg.jobAllocations[j].nodes)
  {
  }

  lemma EmptyInv()
    ensures Inv(Empty)
  {
  }

  /** A refused `add` keeps the invariant. */
  lemma AddConflictKeepsInv(reg: Registry, a: Allocation)
    requires Inv(reg) && Add(reg, a).conflict.Some?
    ensures Inv(Add(reg, a).registry)
  {
    var r := Add(reg, a).registry;
    forall name | name in r.nodeAllocations
      ensures |r.nodeAllocations[name]| <= 1
    {
      assert ForNode(r, name) == ForNode(reg, name);
    }
  }

  lemma AddKeepsUniqueIds(reg: Registry, a: Allocation)
    requires UniqueIds(reg.jobAllocations) && ForJob(reg, JobIdOf(a)).None?
    ensures UniqueIds(reg.jobAllocations + [a])
  {
    var list := reg.jobAllocations;
    var l := list + [a];
    forall i, j | 0 <= i < j < |l|
      ensures JobIdOf(l[i]) != JobIdOf(l[j])
    {
      assert l[i] == list[i] && list[i] in list;
      if j < |list| {
        assert l[j] == list[j];
      }
    }
  }

  /** The lists a successful `add` leaves: one copy of the allocation per occurrence of the node. */
  lemma AddedLists(reg: Registry, a: Allocation, name: string)
    requires Add(reg, a).conflict.None?
    requires name in Add(reg, a).registry.nodeAllocations
    ensures name in Names(a.nodes) ==> ForNode(Add(reg, a).registry, name) == Repeat(a, CountName(a.nodes, name))
    ensures name !in Names(a.nodes) ==> ForNode(Add(reg, a).registry, name) == ForNode(reg, name)
    ensures ForNode(reg, name) <= ForNode(Add(reg, a).registry, name)
  {
    AddSuccess(reg, a);
    var m := Vivify(reg.nodeAllocations, a.nodes);
    AppendEachContents(m, a.nodes, a, name);
    var c := CountName(a.nodes, name);
    assert m[name] == ForNode(reg, name);
    if name in Names(a.nodes) {
      var k :| 0 <= k < |a.nodes| && Names(a.nodes)[k] == name;
      assert a.nodes[k] in a.nodes;
      assert m[name] == [];
      assert [] + Repeat(a, c) == Repeat(a, c);
    }
  }

  /** A successful `add` of an allocation with distinct node names keeps the invariant. */
  lemma AddKeepsInv(reg: Registry, a: Allocation)
    requires Inv(reg) && DistinctNames(a.nodes) && Add(reg, a).conflict.None?
    ensures Inv(Add(reg, a).registry)
  {
    var r := Add(reg, a).registry;
    AddSuccess(reg, a);
    AddKeepsUniqueIds(reg, a);
    forall name | name in r.nodeAllocations
      ensures |r.nodeAllocations[name]| <= 1
    {
      AddedLists(reg, a, name);
    }
    forall x, n | x in r.jobAllocations && n in x.nodes
      ensures x in ForNode(r, n.name)
    {
      NamesOfMembers(a.nodes);
      if x == a {
        assert a in ForNode(r, n.name);
      } else {
        assert x in ForNode(reg, n.name);
        AddedLists(reg, a, n.name);
      }
    }
  }

  lemma {:induction false} RemoveIdUnique(list: seq<Allocation>, id: JobId)
    requires UniqueIds(list)
    ensures UniqueIds(RemoveId(list, id))
  {
    if |list| > 0 {
      var x, tail := list[0], list[1..];
      assert list == [x] + tail;
      UniqueIdsCons(x, tail);
      RemoveIdUnique(tail, id);
      var rest := RemoveId(tail, id);
      if JobIdOf(x) == id {
        assert RemoveId(list, id) == rest;
      } else {
        assert RemoveId(list, id) == [x] + rest;
        assert forall y :: y in rest ==> y in tail;
        UniqueIdsCons(x, rest);
      }
    }
  }

  /** `delete` keeps the invariant. */
  lemma DeleteKeepsInv(reg: Registry, a: Allocation)
    requires Inv(reg)
    ensures Inv(Delete(reg, a))
  {
    var r := Delete(reg, a);
    RemoveIdUnique(reg.jobAllocations, JobIdOf(a));
    forall name | name in r.nodeAllocations
      ensures |r.nodeAllocations[name]| <= 1
    {
      assert ForNode(r, name) == r.nodeAllocations[name];
      assert |ForNode(reg, name)| <= 1;
    }
    forall x, n | x in r.jobAllocations && n in x.nodes
      ensures x in ForNode(r, n.name)
    {
      assert x in reg.jobAllocations && x != a;
    }
  }

  lemma RemoveAllRepeat(a: Allocation, k: nat)
    ensures RemoveAll(Repeat(a, k), a) == []
  {
  }

  /**
   * `add` then `delete` of the same allocation restores every observation:
   * each node's list, each job id's lookup and the job table itself.
   */
  lemma AddThenDelete(reg: Registry, a: Allocation, name: string, id: JobId)
    requires Add(reg, a).conflict.None?
    ensures ForNode(Delete(Add(reg, a).registry, a), name) == ForNode(reg, name)
    ensures Delete(Add(reg, a).registry, a).jobAllocations == reg.jobAllocations
    ensures ForJob(Delete(Add(reg, a).registry, a), id) == ForJob(reg, id)
  {
    var r1 := Add(reg, a).registry;
    AddSuccess(reg, a);
    RemoveIdAppend(reg.jobAllocations, a, JobIdOf(a));
    RemoveAbsentId(reg.jobAllocations, JobIdOf(a));
    if name in Names(a.nodes) {
      var k :| 0 <= k < |a.nodes| && Names(a.nodes)[k] == name;
      assert a.nodes[k] in a.nodes;
      AddedLists(reg, a, name);
      RemoveAllRepeat(a, CountName(a.nodes, name));
    }
  }

  // ---------------------------------------------------------------------------
  // Capacity

  /** A per-node requirement as summed: a missing value counts as 0. */
  function OrZero(v: Option<int>): int {
    v.GetOr(0)
  }

  /** `allocated_resources`: the per-node requirements of the jobs holding a node, summed. */
  datatype Resources = Resources(cpus: int, gpus: int, memory: int)

  function SumResources(allocs: seq<Allocation>): Resources {
    if |allocs| == 0 then Resources(0, 0, 0)
    else
      var rest := SumResources(allocs[1..]);
      var j := allocs[0].job;
      Resources(OrZero(Jobs.CpusPerNodeOf(j)) + rest.cpus,
                OrZero(Jobs.GpusPerNodeOf(j)) + rest.gpus,
                OrZero(Jobs.MemoryPerNodeOf(j)) + rest.memory)
  }

  function AllocatedResources(reg: Registry, name: string): (r: Resources)
    ensures ForNode(reg, name) == [] ==> r == Resources(0, 0, 0)
    ensures ForNode(reg, name) != [] && |ForNode(reg, name)| == 1 ==>
      r.cpus == OrZero(Jobs.CpusPerNodeOf(ForNode(reg, name)[0].job))
  {
    var l := ForNode(reg, name);
    if |l| == 1 then
      assert SumResources(l[1..]) == Resources(0, 0, 0);
      SumResources(l)
    else SumResources(l)
  }

  /**
   * The requirements a capacity query needs: a job whose validity can be
   * decided, and a positive CPU need when it passes `valid?` as written
   * (which every job valid under the corrected rules does).
   */
  predicate CapacityQueryable(job: Jobs.Schedulable) {
    Jobs.ValidatableOf(job) && (Jobs.ValidAsWrittenOf(job) ==> OrZero(Jobs.CpusPerNodeOf(job)) > 0)
  }

  /** `k` instances needing `need` each fit in `total` beside `used`, and one more would not. */
  predicate FitsExactly(k: int, used: int, need: int, total: int) {
    used + k * need <= total < used + (k + 1) * need
  }

  /** The formula as written: whole copies of `need` in `cpus`, minus `used`, at least 0. */
  function FormulaAsWritten(cpus: int, need: int, used: int): (r: int)
    requires need > 0
    ensures r >= 0
    ensures used == 0 && cpus >= 0 ==> FitsExactly(r, 0, need, cpus)
  {
    var q := cpus / need;
    assert need * q <= cpus < need * (q + 1);
    var max := q - used;
    if max < 1 then 0 else max
  }

  /** The whole instances of `need` that fit in what `used` leaves of `cpus`. */
  function FreeCapacity(cpus: int, need: int, used: int): (r: int)
    requires need > 0
    ensures r >= 0
    ensures used <= cpus ==> FitsExactly(r, used, need, cpus)
  {
    var free := cpus - used;
    if free < 0 then 0
    else
      assert need * (free / need) <= free < need * (free / need + 1);
      free / need
  }

  /**
   * `max_parallel_per_node(job, node)` as written: 0 for an invalid job;
   * otherwise how many times the job's CPU need fits the node's CPUs, minus
   * the CPUs already allocated on the node, and 0 when that is below 1.
   */
  function MaxParallelPerNode(reg: Registry, job: Jobs.Schedulable, node: Node): (r: int)
    requires CapacityQueryable(job)
    ensures r >= 0
    ensures !Jobs.ValidAsWrittenOf(job) ==> r == 0
    ensures Jobs.ValidAsWrittenOf(job) && ForNode(reg, node.name) == [] && node.cpus >= 0 ==>
      FitsExactly(r, 0, OrZero(Jobs.CpusPerNodeOf(job)), node.cpus)
    ensures Jobs.ValidAsWrittenOf(job) ==>
      r == FormulaAsWritten(node.cpus, OrZero(Jobs.CpusPerNodeOf(job)), AllocatedResources(reg, node.name).cpus)
  {
    if !Jobs.ValidAsWrittenOf(job) then 0
    else FormulaAsWritten(node.cpus, OrZero(Jobs.CpusPerNodeOf(job)), AllocatedResources(reg, node.name).cpus)
  }

  /**
   * The evident intent of the capacity query: the largest number of further
   * instances whose CPU needs fit in the CPUs the node has left.
   */
  function MaxParallelByCapacity(reg: Registry, job: Jobs.Schedulable, node: Node): (r: int)
    requires CapacityQueryable(job)
    ensures r >= 0
    ensures !Jobs.ValidOf(job) ==> r == 0
    ensures Jobs.ValidOf(job) && AllocatedResources(reg, node.name).cpus <= node.cpus ==>
      FitsExactly(r, AllocatedResources(reg, node.name).cpus, OrZero(Jobs.CpusPerNodeOf(job)), node.cpus)
  {
    ValidIsValidAsWritten(job);
    if !Jobs.ValidOf(job) then 0
    else FreeCapacity(node.cpus, OrZero(Jobs.CpusPerNodeOf(job)), AllocatedResources(reg, node.name).cpus)
  }

  /** A job valid under the corrected rules is valid as written. */
  lemma ValidIsValidAsWritten(job: Jobs.Schedulable)
    requires Jobs.ValidatableOf(job)
    ensures Jobs.ValidOf(job) ==> Jobs.ValidAsWrittenOf(job)
  {
  }

  lemma {:induction false} ProductNonNegative(x: int, y: int)
    requires x >= 0 && y >= 0
    ensures x * y >= 0
  {
    if x > 0 {
      ProductNonNegative(x - 1, y);
      assert x * y == (x - 1) * y + y;
    }
  }

  /** With `q` whole copies of `need` in `cpus` and `q > used`, some CPUs are left over after `used`. */
  lemma UsedBelowCpus(cpus: int, need: int, used: int, q: int, r: int)
    requires need > 0 && used >= 0
    requires cpus == need * q + r && 0 <= r < need
    requires q - used >= 1
    ensures cpus - used > 0
  {
    ProductNonNegative(need - 1, q);
    assert (need - 1) * q == need * q - q;
  }

  /**
   * Subtracting `used` CPUs loses at most `used` whole copies of `need`:
   * `q - used` is at most the quotient `k` of `cpus - used`.
   */
  lemma QuotientAfterUse(cpus: int, need: int, used: int, q: int, r: int, k: int, m: int)
    requires need > 0 && used >= 0
    requires cpus == need * q + r && 0 <= r < need
    requires cpus - used == need * k + m && 0 <= m < need
    ensures q - used <= k
  {
    var t := q - k;
    assert need * t == need * q - need * k;
    assert need * t == used + m - r;
    if t > 0 {
      ProductNonNegative(need - 1, t - 1);
      assert (need - 1) * (t - 1) == need * t - need - t + 1;
    }
  }

  /** The written formula never grants more instances than fit in the free CPUs. */
  lemma FormulaNeverAboveFree(cpus: int, need: int, used: int)
    requires need > 0 && used >= 0
    ensures FormulaAsWritten(cpus, need, used) <= FreeCapacity(cpus, need, used)
  {
    var q, r := cpus / need, cpus % need;
    if q - used >= 1 {
      UsedBelowCpus(cpus, need, used, q, r);
      QuotientAfterUse(cpus, need, used, q, r, (cpus - used) / need, (cpus - used) % need);
    }
  }

  /** On a node nothing holds, the written formula and the corrected one agree. */
  lemma FormulaAgreesWhenFree(cpus: int, need: int)
    requires need > 0 && cpus >= 0
    ensures FormulaAsWritten(cpus, need, 0) == FreeCapacity(cpus, need, 0)
  {
  }

  /**
   * For every registry, job and node whose allocated CPU count is not
   * negative, the capacity query as written never answers more instances
   * than fit in the node's free CPUs, and for a job valid under the
   * corrected rules it is at most the corrected query.
   */
  lemma WrittenNeverAboveCapacity(reg: Registry, job: Jobs.Schedulable, node: Node)
    requires CapacityQueryable(job)
    requires AllocatedResources(reg, node.name).cpus >= 0
    ensures Jobs.ValidAsWrittenOf(job) ==>
      MaxParallelPerNode(reg, job, node) <= FreeCapacity(node.cpus, OrZero(Jobs.CpusPerNodeOf(job)), AllocatedResources(reg, node.name).cpus)
    ensures Jobs.ValidOf(job) ==> MaxParallelPerNode(reg, job, node) <= MaxParallelByCapacity(reg, job, node)
    ensures !Jobs.ValidAsWrittenOf(job) ==> MaxParallelPerNode(reg, job, node) == 0
  {
    ValidIsValidAsWritten(job);
    if Jobs.ValidAsWrittenOf(job) {
      FormulaNeverAboveFree(node.cpus, OrZero(Jobs.CpusPerNodeOf(job)), AllocatedResources(reg, node.name).cpus);
    }
  }

  /** A valid job needing `cpus` CPUs per node. */
  function SampleJob(id: string, cpus: int): Jobs.Schedulable {
    Jobs.Plain(Jobs.Blank.(id := Some(id), jobType := Some("JOB"), state := Some("PENDING"),
      minNodes := Jobs.Count(1), scriptName := Some("job.sh"), scriptProvided := Values.Bool(true),
      cpusPerNode := Some(cpus)))
  }

  /** A sample job with a non-blank id is valid, as written and corrected, and needs `cpus` CPUs per node. */
  lemma SampleJobIsValid(id: string, cpus: int)
    requires !Values.IsBlank(id)
    ensures Jobs.ValidatableOf(SampleJob(id, cpus))
    ensures Jobs.ValidOf(SampleJob(id, cpus)) && Jobs.ValidAsWrittenOf(SampleJob(id, cpus))
    ensures Jobs.CpusPerNodeOf(SampleJob(id, cpus)) == Some(cpus)
  {
    Jobs.NamesAreNotBlank();
    assert !Values.IsSpace("job.sh"[0]);
    assert Jobs.WellFormed(Jobs.Own(SampleJob(id, cpus)));
    ValidIsValidAsWritten(SampleJob(id, cpus));
  }

  /**
   * On an 8-CPU node where one job needing 2 CPUs is allocated, a job
   * needing 2 CPUs gets 8 / 2 - 2 = 2 as written, yet 3 more instances fit
   * in the 6 free CPUs.
   */
  lemma CapacityMixesUnits()
    ensures var node := Node("n1", 8, 0, 0);
      var held := Allocation(SampleJob("held", 2), [node]);
      var reg := Registry(map["n1" := [held]], [held]);
      && Inv(reg)
      && CapacityQueryable(SampleJob("new", 2))
      && MaxParallelPerNode(reg, SampleJob("new", 2), node) == 2
      && MaxParallelByCapacity(reg, SampleJob("new", 2), node) == 3
  {
    assert !Values.IsSpace("new"[0]);
    SampleJobIsValid("new", 2);
    MixedUnitsOn(Node("n1", 8, 0, 0), SampleJob("held", 2), SampleJob("new", 2));
  }

  /** `CapacityMixesUnits` for any node of 8 CPUs, held by one 2-CPU job, and any valid 2-CPU job. */
  lemma MixedUnitsOn(node: Node, heldJob: Jobs.Schedulable, job: Jobs.Schedulable)
    requires node.cpus == 8 && Jobs.CpusPerNodeOf(heldJob) == Some(2)
    requires Jobs.ValidatableOf(job) && Jobs.ValidOf(job) && Jobs.CpusPerNodeOf(job) == Some(2)
    ensures var held := Allocation(heldJob, [node]);
      var reg := Registry(map[node.name := [held]], [held]);
      && Inv(reg)
      && CapacityQueryable(job)
      && MaxParallelPerNode(reg, job, node) == 2
      && MaxParallelByCapacity(reg, job, node) == 3
  {
    var held := Allocation(heldJob, [node]);
    OneHolderRegistry(held);
    ValidIsValidAsWritten(job);
  }

  /** A registry holding one allocation on one node satisfies the invariant and lists it there alone. */
  lemma OneHolderRegistry(held: Allocation)
    requires |held.nodes| == 1
    ensures var reg := Registry(map[held.nodes[0].name := [held]], [held]);
      && Inv(reg)
      && ForNode(reg, held.nodes[0].name) == [held]
      && AllocatedResources(reg, held.nodes[0].name).cpus == OrZero(Jobs.CpusPerNodeOf(held.job))
  {
    var reg := Registry(map[held.nodes[0].name := [held]], [held]);
    assert forall x, n :: x in reg.jobAllocations && n in x.nodes ==> x == held && n == held.nodes[0];
  }

  /**
   * A `JOB` needing 2 CPUs whose `min_nodes` is the text "+5" passes `valid?`
   * as written, so on an empty 8-CPU node the query as written answers
   * 8 / 2 - 0 = 4, while the corrected validation refuses the job and the
   * corrected query answers 0.
   */
  lemma SignedJobGetsCapacityAsWritten()
    ensures var job := Jobs.Plain(Jobs.Own(SampleJob("new", 2)).(minNodes := Jobs.Raw("+5")));
      var node := Node("n1", 8, 0, 0);
      && CapacityQueryable(job)
      && Jobs.ValidAsWrittenOf(job) && !Jobs.ValidOf(job)
      && MaxParallelPerNode(Empty, job, node) == 4
      && MaxParallelByCapacity(Empty, job, node) == 0
  {
    var job := Jobs.Plain(Jobs.Own(SampleJob("new", 2)).(minNodes := Jobs.Raw("+5")));
    Jobs.NamesAreNotBlank();
    assert !Values.IsSpace("new"[0]) && !Values.IsSpace("job.sh"[0]);
    Jobs.SignedMinNodesSplitsVerdicts(job.job);
    assert ForNode(Empty, "n1") == [];
  }
}
