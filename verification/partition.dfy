/**
 * A partition: a named, ordered pool of nodes with scheduling settings. It is
 * a value object compared by name and node list, with one validation rule.
 */
module Partitions {
  import opened Wrappers
  import opened Values
  import opened Nodes

  datatype Partition = Partition(
    name: string,
    nodes: seq<Node>,
    default: Value,
    defaultTimeLimit: Value,
    matches: Value,
    maxTimeLimit: Value)

  /**
   * `Partition.new(name:, nodes:, ...)`; an omitted keyword (`None`) takes
   * its default: `false` for `default`, `{}` for `matches`, `nil` for the two
   * time limits.
   */
  function NewPartition(
    name: string,
    nodes: seq<Node>,
    default: Option<Value>,
    defaultTimeLimit: Option<Value>,
    matches: Option<Value>,
    maxTimeLimit: Option<Value>): (p: Partition)
    ensures p.name == name && p.nodes == nodes
    ensures p.default == default.GetOr(Bool(false))
    ensures p.matches == matches.GetOr(Hash([]))
    ensures p.defaultTimeLimit == defaultTimeLimit.GetOr(Nil)
    ensures p.maxTimeLimit == maxTimeLimit.GetOr(Nil)
  {
    Partition(name, nodes, default.GetOr(Bool(false)), defaultTimeLimit.GetOr(Nil),
              matches.GetOr(Hash([])), maxTimeLimit.GetOr(Nil))
  }

  /** `default?`: the truthiness of the `default` setting. */
  predicate IsDefault(p: Partition) {
    Truthy(p.default)
  }

  /** A partition built without a `default` setting is not the default one. */
  lemma NotDefaultUnlessSet(name: string, nodes: seq<Node>, t1: Option<Value>, m: Option<Value>, t2: Option<Value>)
    ensures !IsDefault(NewPartition(name, nodes, None, t1, m, t2))
  {
  }

  /** `==` and `eql?`: same name and the same nodes in the same order. */
  predicate Same(p: Partition, q: Partition) {
    p.name == q.name && p.nodes == q.nodes
  }

  /** `Same` is an equivalence relation, as `eql?` must be for hash keys. */
  lemma SameIsEquivalence(p: Partition, q: Partition, r: Partition)
    ensures Same(p, p)
    ensures Same(p, q) ==> Same(q, p)
    ensures Same(p, q) && Same(q, r) ==> Same(p, r)
  {
  }

  /**
   * What `hash` digests: the class, the name, then the hash of every node in
   * order. A node stands for its own hash here.
   */
  function HashInput(p: Partition): (string, string, seq<Node>) {
    ("Partition", p.name, p.nodes)
  }

  /** Equal partitions hash alike, and only the compared fields feed the hash. */
  lemma HashAgreesWithSame(p: Partition, q: Partition)
    ensures Same(p, q) <==> HashInput(p) == HashInput(q)
  {
  }

  /** Partitions differing only in their settings are equal and hash alike. */
  lemma SettingsDoNotMatter(p: Partition, default: Value, t1: Value, m: Value, t2: Value)
    ensures Same(p, p.(default := default, defaultTimeLimit := t1, matches := m, maxTimeLimit := t2))
    ensures HashInput(p) == HashInput(p.(default := default, defaultTimeLimit := t1, matches := m, maxTimeLimit := t2))
  {
  }

  /** `validate_matches`: the only rule, `matches` must be a hash. */
  function Validate(p: Partition): (errors: seq<ValidationError>)
    ensures errors == [] <==> IsHash(p.matches)
    ensures errors != [] ==> errors == [AttrError("matches", "must be a hash")]
  {
    if IsHash(p.matches) then [] else [AttrError("matches", "must be a hash")]
  }

  /** The default `matches` (`{}`) passes validation. */
  lemma DefaultMatchesValid(name: string, nodes: seq<Node>, d: Option<Value>, t1: Option<Value>, t2: Option<Value>)
    ensures Validate(NewPartition(name, nodes, d, t1, None, t2)) == []
  {
  }
}
