/** Node selection. The selector language of the node filter is not modelled; the one
    selector the manifest code uses, `"server:*"`, picks the nodes of one role. */
module Util {
  import opened K3dTypes

  /** The nodes of `nodes` whose role is `role`, in their original order: what a
      selector `"<role>:*"` filters out of a node list. Every node of that role is
      kept as often as it occurs, and every other node is dropped. */
  function FilterNodesByRole(nodes: seq<Node>, role: Role): (r: seq<Node>)
    reads nodes
    ensures |r| <= |nodes|
    ensures forall n :: n in r ==> n in nodes && n.role == role
    ensures forall n :: n in nodes && n.role == role ==> n in r
    ensures forall n :: n in nodes ==> multiset(r)[n] == if n.role == role then multiset(nodes)[n] else 0
  {
    if nodes == [] then []
    else
      var rest := FilterNodesByRole(nodes[1..], role);
      assert nodes == [nodes[0]] + nodes[1..];
      if nodes[0].role == role then [nodes[0]] + rest else rest
  }

  /** No node occurs twice in `nodes`. */
  predicate Distinct(nodes: seq<Node>)
  {
    forall i, j :: 0 <= i < j < |nodes| ==> nodes[i] != nodes[j]
  }

  /** In a list without repetitions, every member occurs exactly once. */
  lemma {:induction false} DistinctOccursOnce(nodes: seq<Node>, n: Node)
    requires Distinct(nodes)
    ensures multiset(nodes)[n] == if n in nodes then 1 else 0
  {
    if nodes != [] {
      assert nodes == [nodes[0]] + nodes[1..];
      assert Distinct(nodes[1..]) by {
        forall i, j | 0 <= i < j < |nodes[1..]| ensures nodes[1..][i] != nodes[1..][j] {
          assert nodes[1..][i] == nodes[i + 1] && nodes[1..][j] == nodes[j + 1];
        }
      }
      DistinctOccursOnce(nodes[1..], n);
    }
  }
}
