/** The name-indexed directed graph: a list of nodes, and a map from each
    node's name to its position in that list. Edges live in the nodes' child
    lists, so an edge can be recorded more than once. */
module Graphs {
  import opened Results
  import opened Lists
  import opened Scanning
  import opened Nodes
  import opened GraphFormat

  /** The map from each of `names` to its position, as `readFromFile` fills
      `nameMap` name by name. */
  function IndexMap(names: seq<string>): (m: map<string, int>)
    ensures forall name :: name in m <==> name in names
  {
    if names == [] then map[] else IndexMap(names[..|names| - 1])[names[|names| - 1] := |names| - 1]
  }

  lemma IndexMapAppend(names: seq<string>, name: string)
    ensures IndexMap(names + [name]) == IndexMap(names)[name := |names|]
  {
    assert (names + [name])[..|names|] == names;
  }

  lemma {:induction false} IndexMapPositions(names: seq<string>)
    requires Distinct(names)
    ensures forall q :: 0 <= q < |names| ==> IndexMap(names)[names[q]] == q
  {
    if names != [] {
      var init := names[..|names| - 1];
      IndexMapPositions(init);
      forall q | 0 <= q < |names| - 1 ensures IndexMap(names)[names[q]] == q {
        assert names[q] == init[q];
      }
    }
  }

  class Graph {
    var nodeList: seq<Node>
    var nameMap: map<string, int>

    /** The two structures agree and the edges stay inside the graph. */
    ghost predicate Valid()
      reads this, nodeList
    {
      Indexed() && Closed()
    }

    /** Each node is registered under its own position, and every registered
        name is the name of the node at its position. Names never change, so
        this does not depend on any node's children. */
    ghost predicate Indexed()
      reads this
    {
      && (forall i :: 0 <= i < |nodeList| ==> nodeList[i].value in nameMap && nameMap[nodeList[i].value] == i)
      && (forall name :: name in nameMap ==> 0 <= nameMap[name] < |nodeList| && nodeList[nameMap[name]].value == name)
    }

    /** Every child is one of the graph's nodes. */
    ghost predicate Closed()
      reads this, nodeList
    {
      forall i :: 0 <= i < |nodeList| ==> ChildrenIn(nodeList[i])
    }

    /** The children of `node` are all nodes of the graph. */
    ghost predicate ChildrenIn(node: Node)
      reads this, node
    {
      forall c :: c in node.nodes ==> c in nodeList
    }

    /** Names are unique, so no node sits at two positions. */
    lemma NodesDistinct()
      requires Indexed()
      ensures forall i, j :: 0 <= i < |nodeList| && 0 <= j < |nodeList| && i != j ==> nodeList[i] != nodeList[j]
    {
      forall i, j | 0 <= i < |nodeList| && 0 <= j < |nodeList| && i != j
        ensures nodeList[i].value != nodeList[j].value
      {
        assert nameMap[nodeList[i].value] == i;
      }
    }

    constructor CreateEmpty()
      ensures Valid()
      ensures nodeList == [] && nameMap == map[]
    {
      nodeList := [];
      nameMap := map[];
    }

    // -------------------------------------------------------------------
    // Queries

    /** All names, in the order the nodes were added. */
    function GetAllNodes(): (names: seq<string>)
      reads this
      requires Indexed()
      ensures Distinct(names)
      ensures |names| == |nodeList|
      ensures forall i :: 0 <= i < |names| ==> names[i] == nodeList[i].value && nameMap[names[i]] == i
      ensures forall name :: name in nameMap <==> name in names
    {
      Values(nodeList)
    }

    /** The node registered under `nodeName`, or null when there is none. */
    function GetNode(nodeName: string): (node: Node?)
      reads this
      requires Indexed()
      ensures node == null <==> nodeName !in nameMap
      ensures node != null ==> node in nodeList && node.value == nodeName
    {
      if nodeName in nameMap then nodeList[nameMap[nodeName]] else null
    }

    /** The names of the children of `nodeName`, in order and with repeats;
        empty for an unknown name. */
    function GetChildren(nodeName: string): (children: seq<string>)
      reads this, nodeList
      requires Valid()
      ensures nodeName !in nameMap ==> children == []
      ensures nodeName in nameMap ==> children == Values(GetNode(nodeName).nodes)
      ensures forall child :: child in children ==> child in nameMap
    {
      var node := GetNode(nodeName);
      if node == null then []
      else
        ChildNamesRegistered(node);
        Values(node.GetNodes())
    }

    lemma ChildNamesRegistered(node: Node)
      requires Valid() && node in nodeList
      ensures forall child :: child in Values(node.nodes) ==> child in nameMap
    {
      var i :| 0 <= i < |nodeList| && nodeList[i] == node;
      forall child | child in Values(node.nodes) ensures child in nameMap {
        var j :| 0 <= j < |node.nodes| && Values(node.nodes)[j] == child;
        assert node.nodes[j] in nodeList;
        var m :| 0 <= m < |nodeList| && nodeList[m] == node.nodes[j];
        assert nodeList[m].value in nameMap;
      }
    }

    /** Whether `toNode` equals one of the children of `fromNode`; false when
        either is null. */
    static function IsEdgeBetween(fromNode: Node?, toNode: Node?): (b: bool)
      reads fromNode
      ensures b <==> fromNode != null && toNode != null &&
                     exists i :: 0 <= i < |fromNode.nodes| && toNode.Equals(fromNode.nodes[i])
    {
      if fromNode == null || toNode == null then false
      else
        var k := IndexOf(Values(fromNode.GetNodes()), toNode.value);
        assert k >= 0 ==> toNode.Equals(fromNode.nodes[k]);
        k >= 0
    }

    /** Both names are known and `toName` is among the children of `fromName`. */
    function IsEdge(fromName: string, toName: string): (b: bool)
      reads this, nodeList
      requires Valid()
      ensures b <==> fromName in nameMap && toName in nameMap && toName in GetChildren(fromName)
    {
      IsEdgeBetween(GetNode(fromName), GetNode(toName))
    }

    // -------------------------------------------------------------------
    // Updates

    /** Adds a node with no children under a fresh name at the end of the
        list; refuses a name already registered, changing nothing. */
    method AddNode(nodeName: string) returns (added: bool)
      requires Valid()
      modifies this
      ensures Valid()
      ensures added <==> nodeName !in old(nameMap)
      ensures added ==>
                && |nodeList| == old(|nodeList|) + 1
                && nodeList[..old(|nodeList|)] == old(nodeList)
                && fresh(nodeList[old(|nodeList|)])
                && nodeList[old(|nodeList|)].value == nodeName
                && nodeList[old(|nodeList|)].nodes == []
                && nameMap == old(nameMap)[nodeName := old(|nodeList|)]
      ensures added ==> GetAllNodes() == old(GetAllNodes()) + [nodeName]
      ensures !added ==> nodeList == old(nodeList) && nameMap == old(nameMap)
    {
      if nodeName in nameMap {
        return false;
      }
      nameMap := nameMap[nodeName := |nodeList|];
      var node := new Node(nodeName);
      nodeList := nodeList + [node];
      added := true;
    }

    /** Appends `toNode` to the children of `fromNode`; false, and no change,
        when either is null. */
    static method AddEdgeBetween(fromNode: Node?, toNode: Node?) returns (added: bool)
      modifies fromNode
      ensures added <==> fromNode != null && toNode != null
      ensures added ==> fromNode.nodes == old(fromNode.nodes) + [toNode]
      ensures !added && fromNode != null ==> fromNode.nodes == old(fromNode.nodes)
    {
      if fromNode == null || toNode == null {
        return false;
      }
      added := fromNode.AddNode(toNode);
    }

    /** With both names known, appends `toName`'s node as the last child of
        `fromName`'s node, even if it is already a child; no other child list
        changes. With an unknown name, returns false and changes nothing. */
    method AddEdge(fromName: string, toName: string) returns (added: bool)
      requires Valid()
      modifies nodeList
      ensures Valid()
      ensures added <==> fromName in nameMap && toName in nameMap
      ensures added ==> GetNode(fromName).nodes == old(GetNode(fromName).nodes) + [GetNode(toName)]
      ensures added ==> GetChildren(fromName) == old(GetChildren(fromName)) + [toName]
      ensures added ==> IsEdge(fromName, toName)
      ensures forall i :: 0 <= i < |nodeList| && nodeList[i].value != fromName ==>
                nodeList[i].nodes == old(nodeList[i].nodes)
      ensures !added ==> forall i :: 0 <= i < |nodeList| ==> nodeList[i].nodes == old(nodeList[i].nodes)
    {
      var fromNode := GetNode(fromName);
      var toNode := GetNode(toName);
      added := AddEdgeBetween(fromNode, toNode);
      if added {
        assert ChildrenIn(fromNode) by {
          forall c | c in fromNode.nodes ensures c in nodeList {
            assert c in old(fromNode.nodes) || c == toNode;
          }
        }
        assert Values(fromNode.nodes)[|fromNode.nodes| - 1] == toName;
      }
    }

    /** Removes the first child of `fromNode` equal to `toNode`; false, and no
        change, when either is null or there is no such child. */
    static method RemoveEdgeBetween(fromNode: Node?, toNode: Node?) returns (removed: bool)
      modifies fromNode
      ensures removed <==> old(IsEdgeBetween(fromNode, toNode))
      ensures fromNode != null && toNode != null ==>
                Values(fromNode.nodes) == RemoveFirst(Values(old(fromNode.nodes)), toNode.value)
      ensures !removed && fromNode != null ==> fromNode.nodes == old(fromNode.nodes)
      ensures removed ==>
                var k := IndexOf(Values(old(fromNode.nodes)), toNode.value);
                fromNode.nodes == old(fromNode.nodes)[..k] + old(fromNode.nodes)[k + 1..]
    {
      if fromNode == null || toNode == null {
        return false;
      }
      removed := fromNode.RemoveNode(toNode);
    }

    /** With both names known, removes the first occurrence of `toName` among
        the children of `fromName`, keeping the others in order, and reports
        whether there was one; no other child list changes. With an unknown
        name, returns false and changes nothing. */
    method RemoveEdge(fromName: string, toName: string) returns (removed: bool)
      requires Valid()
      modifies nodeList
      ensures Valid()
      ensures removed <==> old(IsEdge(fromName, toName))
      ensures fromName in nameMap && toName in nameMap ==>
                GetChildren(fromName) == RemoveFirst(old(GetChildren(fromName)), toName)
      ensures forall i :: 0 <= i < |nodeList| && nodeList[i].value != fromName ==>
                nodeList[i].nodes == old(nodeList[i].nodes)
      ensures !removed ==> forall i :: 0 <= i < |nodeList| ==> nodeList[i].nodes == old(nodeList[i].nodes)
    {
      var fromNode := GetNode(fromName);
      var toNode := GetNode(toName);
      removed := RemoveEdgeBetween(fromNode, toNode);
      if removed {
        assert ChildrenIn(fromNode) by {
          forall c | c in fromNode.nodes ensures c in nodeList {
            assert c in old(fromNode.nodes);
          }
        }
      }
    }

    // -------------------------------------------------------------------
    // Saving and reading

    /** A node of the graph is found again through its name's position. */
    lemma PositionOfMember(c: Node)
      requires Valid() && c in nodeList
      ensures c.value in nameMap && 0 <= nameMap[c.value] < |nodeList| && nodeList[nameMap[c.value]] == c
    {
      var m :| 0 <= m < |nodeList| && nodeList[m] == c;
    }

    /** Every child is found again through its name's position. */
    lemma ChildrenPositioned()
      requires Valid()
      ensures forall i, c :: 0 <= i < |nodeList| && c in nodeList[i].nodes ==>
                c.value in nameMap && 0 <= nameMap[c.value] < |nodeList| && nodeList[nameMap[c.value]] == c
    {
      forall i, c | 0 <= i < |nodeList| && c in nodeList[i].nodes
        ensures c.value in nameMap && 0 <= nameMap[c.value] < |nodeList| && nodeList[nameMap[c.value]] == c
      {
        PositionOfMember(c);
      }
    }

    /** The positions `nameMap` gives the names of `cs`, as a child line
        records them. */
    function PositionsOf(cs: seq<Node>): (row: seq<nat>)
      reads this
      requires forall k :: 0 <= k < |cs| ==> cs[k].value in nameMap && 0 <= nameMap[cs[k].value]
      ensures |row| == |cs|
      ensures forall k :: 0 <= k < |cs| ==> row[k] == nameMap[cs[k].value]
    {
      if cs == [] then [] else [nameMap[cs[0].value] as nat] + PositionsOf(cs[1..])
    }

    /** The child lines of the nodes `ns`. */
    function Rows(ns: seq<Node>): (rows: seq<seq<nat>>)
      reads this, ns
      requires forall i, c :: 0 <= i < |ns| && c in ns[i].nodes ==> c.value in nameMap && 0 <= nameMap[c.value]
      ensures |rows| == |ns|
      ensures forall i :: 0 <= i < |ns| ==> rows[i] == PositionsOf(ns[i].nodes)
    {
      if ns == [] then [] else [PositionsOf(ns[0].nodes)] + Rows(ns[1..])
    }

    /** The graph as its file records it: the names in order and, for each
        node, the positions of its children, so that position `children[i][k]`
        holds the `k`-th child of node `i`. */
    function ToListing(): (l: Listing)
      reads this, nodeList
      requires Valid()
      ensures WellFormed(l)
      ensures l.names == GetAllNodes()
      ensures forall i :: 0 <= i < |nodeList| ==> |l.children[i]| == |nodeList[i].nodes|
      ensures forall i, k :: 0 <= i < |nodeList| && 0 <= k < |nodeList[i].nodes| ==>
                nodeList[l.children[i][k]] == nodeList[i].nodes[k]
    {
      RowsPositioned();
      Listing(GetAllNodes(), Rows(nodeList))
    }

    /** Each entry of a child line is the position of that child. */
    lemma RowsPositioned()
      requires Valid()
      ensures forall i, c :: 0 <= i < |nodeList| && c in nodeList[i].nodes ==> c.value in nameMap && 0 <= nameMap[c.value]
      ensures var rows := Rows(nodeList);
        forall i, k :: 0 <= i < |nodeList| && 0 <= k < |rows[i]| ==>
          rows[i][k] < |nodeList| && nodeList[rows[i][k]] == nodeList[i].nodes[k]
      ensures WellFormed(Listing(GetAllNodes(), Rows(nodeList)))
    {
      ChildrenPositioned();
      var rows := Rows(nodeList);
      forall i, k | 0 <= i < |nodeList| && 0 <= k < |rows[i]|
        ensures rows[i][k] < |nodeList| && nodeList[rows[i][k]] == nodeList[i].nodes[k]
      {
        var c := nodeList[i].nodes[k];
        assert c in nodeList[i].nodes;
        assert rows[i][k] == nameMap[c.value];
      }
    }

    /** `saveToFile`: the count, the names one per line, then per node its
        child count and its children's positions, each followed by a space. */
    method SaveToFile() returns (text: string)
      requires Valid()
      ensures text == Serialize(ToListing())
    {
      var names := WriteNames();
      ChildrenPositioned();
      var rows := WriteChildLines();
      text := NatToString(|nodeList|) + "\n" + names + rows;
    }

    /** The names part of `saveToFile`: each name followed by a line break. */
    method WriteNames() returns (text: string)
      requires Indexed()
      ensures text == Lines(GetAllNodes())
    {
      ghost var names := GetAllNodes();
      text := "";
      for i := 0 to |nodeList|
        invariant text == Lines(names[..i])
      {
        LinesPrefix(names, i);
        text := text + nodeList[i].GetValue() + "\n";
      }
      assert names[..|nodeList|] == names;
    }

    /** The child lines of `saveToFile`, one per node in order. */
    method WriteChildLines() returns (text: string)
      requires forall i, c :: 0 <= i < |nodeList| && c in nodeList[i].nodes ==> c.value in nameMap && 0 <= nameMap[c.value]
      ensures text == RowLines(Rows(nodeList))
    {
      ghost var rows := Rows(nodeList);
      text := "";
      for i := 0 to |nodeList|
        invariant text == RowLines(rows[..i])
      {
        var children := nodeList[i].GetNodes();
        assert forall k :: 0 <= k < |children| ==> children[k] in nodeList[i].nodes;
        var line := WriteChildLine(children);
        RowLinesPrefix(rows, i);
        text := text + line;
      }
      assert rows[..|nodeList|] == rows;
    }

    /** One child line of `saveToFile`: the child count and a space, the
        children's positions each followed by a space, and a line break. */
    method WriteChildLine(children: seq<Node>) returns (line: string)
      requires forall k :: 0 <= k < |children| ==> children[k].value in nameMap && 0 <= nameMap[children[k].value]
      ensures line == RowLine(PositionsOf(children))
    {
      ghost var row := PositionsOf(children);
      line := NatToString(|children|) + " ";
      for j := 0 to |children|
        invariant line == NatToString(|children|) + " " + IndexList(row[..j])
      {
        IndexListPrefix(row, j);
        line := line + NatToString(nameMap[children[j].GetValue()]) + " ";
      }
      assert row[..|children|] == row;
      line := line + "\n";
    }

    /** What `saveToFile` writes, `readFromFile` reads back as the same
        listing, whenever the names can be saved at all. */
    lemma SavedListingReadsBack()
      requires Valid() && Saveable(ToListing())
      ensures Parse(Serialize(ToListing())) == Success(ToListing())
    {
      RoundTrip(ToListing());
    }

    /** Two graphs with the same listing answer every query alike: the same
        names in the same order, and the same children for every name. */
    lemma ListingDeterminesQueries(other: Graph, name: string)
      requires Valid() && other.Valid() && ToListing() == other.ToListing()
      ensures GetAllNodes() == other.GetAllNodes()
      ensures GetChildren(name) == other.GetChildren(name)
    {
      var l := ToListing();
      assert GetAllNodes() == l.names == other.GetAllNodes();
      if name in nameMap {
        var p := nameMap[name];
        assert l.names[p] == name;
        assert other.nameMap[name] == p;
        var mine := Values(nodeList[p].nodes);
        var theirs := Values(other.nodeList[p].nodes);
        forall k | 0 <= k < |mine| ensures mine[k] == theirs[k] {
          assert nodeList[l.children[p][k]] == nodeList[p].nodes[k];
          assert other.nodeList[l.children[p][k]] == other.nodeList[p].nodes[k];
          assert l.names[l.children[p][k]] == mine[k];
        }
      }
    }

    /** `readFromFile`: reads the count with `nextInt`, skips the `\s`
        characters after it, reads the names and then the child lines into a
        new graph. It fails exactly where `Parse` fails, with the same error,
        and otherwise builds a graph of new nodes whose listing is what
        `Parse` read. */
    static method ReadFromFile(text: string) returns (r: Result<Graph, ReadError>)
      ensures r.Success? <==> Parse(text).Success?
      ensures r.Failure? ==> Parse(text) == Failure(r.error)
      ensures r.Success? ==>
                && fresh(r.value) && r.value.Valid()
                && (forall q :: 0 <= q < |r.value.nodeList| ==> fresh(r.value.nodeList[q]))
                && r.value.ToListing() == Parse(text).value
    {
      var graph := new Graph.CreateEmpty();
      var countRead := NextInt(text);
      if countRead.Failure? {
        return Failure(FromScanError(countRead.error));
      }
      var (nodesAmount, afterCount) := countRead.value;
      var skipped := SkipSpaces(afterCount);
      if skipped.None? {
        return Failure(MissingInput);
      }
      var namesRead := graph.ReadNodes(skipped.value, nodesAmount);
      if namesRead.Failure? {
        return Failure(namesRead.error);
      }
      var edgesRead := graph.ReadEdges(namesRead.value);
      if edgesRead.Some? {
        return Failure(edgesRead.value);
      }
      r := Success(graph);
    }

    /** A graph whose nodes carry `names`, without children, and whose
        `nameMap` is `IndexMap(names)` is valid. */
    lemma NamesRegistered(names: seq<string>)
      requires Distinct(names) && nameMap == IndexMap(names) && |nodeList| == |names|
      requires forall q :: 0 <= q < |names| ==> nodeList[q].value == names[q] && nodeList[q].nodes == []
      ensures Valid() && GetAllNodes() == names
    {
      IndexMapPositions(names);
      forall name | name in nameMap ensures 0 <= nameMap[name] < |nodeList| && nodeList[nameMap[name]].value == name {
        var q :| 0 <= q < |names| && names[q] == name;
      }
    }

    /** The names loop of `readFromFile`: registers the `i`-th name read
        under position `i` and fails on the first name registered before. On
        success the graph holds one new node without children per name read,
        and the input after the names is returned. */
    method ReadNodes(s: string, nodesAmount: int) returns (r: Result<string, ReadError>)
      requires Valid() && nodeList == []
      modifies this
      ensures r.Success? <==> ReadNames(s, nodesAmount, []).Success?
      ensures r.Failure? ==> ReadNames(s, nodesAmount, []) == Failure(r.error)
      ensures r.Success? ==>
                && Valid()
                && ReadNames(s, nodesAmount, []) == Success((GetAllNodes(), r.value))
                && (forall q :: 0 <= q < |nodeList| ==> fresh(nodeList[q]) && nodeList[q].nodes == [])
    {
      ghost var names: seq<string> := [];
      var rest := s;
      var i := 0;
      while i < nodesAmount
        invariant 0 <= i && (0 <= nodesAmount ==> i <= nodesAmount)
        invariant |names| == i && Distinct(names) && nameMap == IndexMap(names)
        invariant |nodeList| == i
        invariant forall q :: 0 <= q < i ==> nodeList[q].value == names[q] && fresh(nodeList[q]) && nodeList[q].nodes == []
        invariant ReadNames(rest, nodesAmount, names) == ReadNames(s, nodesAmount, [])
      {
        var line := NextLine(rest);
        if line.None? {
          return Failure(MissingInput);
        }
        var (nodeValue, afterLine) := line.value;
        var previous := if nodeValue in nameMap then Some(nameMap[nodeValue]) else None;
        nameMap := nameMap[nodeValue := i];
        if previous.Some? {
          return Failure(DuplicateName(nodeValue));
        }
        var node := new Node(nodeValue);
        nodeList := nodeList + [node];
        IndexMapAppend(names, nodeValue);
        names := names + [nodeValue];
        rest := afterLine;
        i := i + 1;
      }
      NamesRegistered(names);
      r := Success(rest);
    }

    /** The child-lines loop of `readFromFile`: for each node in order, reads
        a child count and then that many positions, appending the node at each
        position to its children. On success the graph's listing has the
        rows `ReadChildren` read. */
    method ReadEdges(s: string) returns (r: Option<ReadError>)
      requires Indexed()
      requires forall q :: 0 <= q < |nodeList| ==> nodeList[q].nodes == []
      modifies nodeList
      ensures r.None? <==> ReadChildren(s, |nodeList|, []).Success?
      ensures r.Some? ==> ReadChildren(s, |nodeList|, []) == Failure(r.value)
      ensures r.None? ==> Valid() && ToListing().children == ReadChildren(s, |nodeList|, []).value
    {
      var n := |nodeList|;
      NodesDistinct();
      var rest := s;
      ghost var rows: seq<seq<nat>> := [];
      var p := 0;
      while p < n
        invariant 0 <= p <= n && |rows| == p
        invariant forall q, k :: 0 <= q < p && 0 <= k < |rows[q]| ==> rows[q][k] < n
        invariant forall q :: 0 <= q < p ==> nodeList[q].nodes == NodesAt(rows[q])
        invariant forall q :: p <= q < n ==> nodeList[q].nodes == []
        invariant ReadChildren(rest, n, rows) == ReadChildren(s, n, [])
      {
        var rowRead := ReadRowInto(nodeList[p], rest);
        if rowRead.Failure? {
          return Some(rowRead.error);
        }
        rows := rows + [ReadRow(rest, n).value.0];
        rest := rowRead.value;
        p := p + 1;
      }
      RowsRead(rows);
      r := None;
    }

    /** Children set from rows of positions keep the graph valid, and the
        graph's listing has those rows. */
    lemma RowsRead(rows: seq<seq<nat>>)
      requires Indexed() && |rows| == |nodeList|
      requires forall q, k :: 0 <= q < |rows| && 0 <= k < |rows[q]| ==> rows[q][k] < |nodeList|
      requires forall q :: 0 <= q < |rows| ==> nodeList[q].nodes == NodesAt(rows[q])
      ensures Valid() && ToListing().children == rows
    {
      forall i, c | 0 <= i < |nodeList| && c in nodeList[i].nodes ensures c in nodeList {
        var k :| 0 <= k < |nodeList[i].nodes| && nodeList[i].nodes[k] == c;
      }
      forall q | 0 <= q < |rows| ensures PositionsOf(nodeList[q].nodes) == rows[q] {
        PositionsOfNodesAt(rows[q]);
      }
    }

    /** The nodes at the given positions. */
    function NodesAt(row: seq<nat>): (ns: seq<Node>)
      reads this
      requires forall k :: 0 <= k < |row| ==> row[k] < |nodeList|
      ensures |ns| == |row| && forall k :: 0 <= k < |row| ==> ns[k] == nodeList[row[k]]
    {
      var nodes := nodeList;
      seq(|row|, k requires 0 <= k < |row| && row[k] < |nodes| => nodes[row[k]])
    }

    /** Positions and nodes correspond one to one. */
    lemma PositionsOfNodesAt(row: seq<nat>)
      requires Indexed() && forall k :: 0 <= k < |row| ==> row[k] < |nodeList|
      ensures forall k :: 0 <= k < |row| ==> NodesAt(row)[k].value in nameMap && 0 <= nameMap[NodesAt(row)[k].value]
      ensures PositionsOf(NodesAt(row)) == row
    {
    }

    /** One pass of the outer loop of `readFromFile`: reads `childrenAmount`
        with `nextInt`, then that many positions, each of which must name a
        node, and appends those nodes to `parent`'s children. On success the
        children are the nodes at the positions `ReadRow` read, and the input
        after them is returned. */
    method ReadRowInto(parent: Node, s: string) returns (r: Result<string, ReadError>)
      requires Indexed() && parent.nodes == []
      modifies parent
      ensures r.Success? <==> ReadRow(s, |nodeList|).Success?
      ensures r.Failure? ==> ReadRow(s, |nodeList|) == Failure(r.error)
      ensures r.Success? ==>
                var (row, rest) := ReadRow(s, |nodeList|).value;
                && rest == r.value
                && (forall k :: 0 <= k < |row| ==> row[k] < |nodeList|)
                && parent.nodes == NodesAt(row)
    {
      var n := |nodeList|;
      var countRead := NextInt(s);
      if countRead.Failure? {
        return Failure(FromScanError(countRead.error));
      }
      var (childrenAmount, rowStart) := countRead.value;
      var rest := rowStart;
      ghost var row: seq<nat> := [];
      var j := 0;
      while j < childrenAmount
        invariant 0 <= j && (0 <= childrenAmount ==> j <= childrenAmount)
        invariant |row| == j
        invariant forall k :: 0 <= k < j ==> row[k] < n
        invariant parent.nodes == NodesAt(row)
        invariant ReadIndices(rest, n, childrenAmount, row) == ReadIndices(rowStart, n, childrenAmount, [])
      {
        var indexRead := NextInt(rest);
        if indexRead.Failure? {
          return Failure(FromScanError(indexRead.error));
        }
        var (index, afterIndex) := indexRead.value;
        if !(0 <= index < n) {
          return Failure(IndexOutOfBounds(index));
        }
        var _ := parent.AddNode(nodeList[index]);
        row := row + [index];
        rest := afterIndex;
        j := j + 1;
      }
      r := Success(rest);
    }
  }
}
