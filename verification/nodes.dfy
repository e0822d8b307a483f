/**
 * A compute node as the core sees it. Node inventory is loaded elsewhere;
 * only a node's unique name and its resource capacities matter here.
 */
module Nodes {

  datatype Node = Node(name: string, cpus: int, gpus: int, memory: int)

  /** The names of a list of nodes, in order. */
  function Names(nodes: seq<Node>): (r: seq<string>)
    ensures |r| == |nodes|
    ensures forall i :: 0 <= i < |nodes| ==> r[i] == nodes[i].name
  {
    seq(|nodes|, i requires 0 <= i < |nodes| => nodes[i].name)
  }

  /** No two nodes of the list share a name. */
  predicate DistinctNames(nodes: seq<Node>) {
    forall i, j :: 0 <= i < j < |nodes| ==> nodes[i].name != nodes[j].name
  }
}
