/** The graph's vertex: a name fixed when the node is created and the list
    of its children, kept in insertion order and compared by name. */
module Nodes {
  import opened Lists
  import JavaInt

  class Node {
    const value: string
    var nodes: seq<Node>

    constructor (name: string)
      ensures value == name && nodes == []
    {
      value := name;
      nodes := [];
    }

    /** `value` is a constant field, so this is the constructor's name on
        every call. */
    function GetValue(): (name: string)
      ensures name == value
    {
      value
    }

    /** The children in order, handed out as a value through which the
        caller cannot change this node. */
    function GetNodes(): (children: seq<Node>)
      reads this
      ensures children == nodes
    {
      nodes
    }

    /** Appends `node` as the last child, even when an equal child is already
        there, and reports success. */
    method AddNode(node: Node) returns (added: bool)
      modifies this
      ensures added
      ensures nodes == old(nodes) + [node]
    {
      nodes := nodes + [node];
      added := true;
    }

    /** Removes the first child equal to `node`, keeping the others in order;
        reports whether there was one. */
    method RemoveNode(node: Node) returns (removed: bool)
      modifies this
      ensures removed <==> exists i :: 0 <= i < |old(nodes)| && node.Equals(old(nodes)[i])
      ensures Values(nodes) == RemoveFirst(Values(old(nodes)), node.value)
      ensures removed ==>
                var k := IndexOf(Values(old(nodes)), node.value);
                nodes == old(nodes)[..k] + old(nodes)[k + 1..]
      ensures !removed ==> nodes == old(nodes)
    {
      var k := IndexOf(Values(nodes), node.value);
      removed := k != -1;
      if removed {
        assert Values(nodes[..k] + nodes[k + 1..]) == Values(nodes)[..k] + Values(nodes)[k + 1..];
        nodes := nodes[..k] + nodes[k + 1..];
      } else {
        assert forall i :: 0 <= i < |nodes| ==> Values(nodes)[i] != node.value;
      }
    }

    /** Two nodes are equal when their names are; the children play no part,
        and the identity shortcut does not change the answer. */
    predicate Equals(o: Node?)
      ensures Equals(o) <==> o != null && o.value == value
    {
      o != null && (this == o || value == o.value)
    }

    /** `Objects.hash(value)`: `31 + value.hashCode()` in `int` arithmetic. */
    function HashCode(): (h: int)
      ensures JavaInt.InRange(h)
    {
      JavaInt.Wrap(31 + StringHash(value))
    }
  }

  /** The names of a list of nodes, in the same order. */
  function Values(ns: seq<Node>): (names: seq<string>)
    ensures |names| == |ns|
    ensures forall i :: 0 <= i < |ns| ==> names[i] == ns[i].value
  {
    seq(|ns|, i requires 0 <= i < |ns| => ns[i].value)
  }

  /** `String.hashCode`: `h = 31 * h + c` over the characters, in `int`
      arithmetic. */
  function StringHash(s: string): (h: int)
    ensures JavaInt.InRange(h)
  {
    if s == [] then 0 else JavaInt.Wrap(31 * StringHash(s[..|s| - 1]) + s[|s| - 1] as int)
  }

  /** `Equals` is an equivalence relation. */
  lemma EqualsIsEquivalence(a: Node, b: Node, c: Node)
    ensures a.Equals(a)
    ensures a.Equals(b) ==> b.Equals(a)
    ensures a.Equals(b) && b.Equals(c) ==> a.Equals(c)
  {
  }

  /** Equal nodes have equal hash codes, whatever their children. */
  lemma EqualNodesHaveEqualHashCodes(a: Node, b: Node)
    requires a.Equals(b)
    ensures a.HashCode() == b.HashCode()
  {
  }
}
