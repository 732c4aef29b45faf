# simple-graph in Dafny

A model of the name-indexed directed graph of `simple-graph` and of its
text file format.

A `Graph` keeps two structures that must agree:

- `nodeList`: the nodes, in the order they were added.
- `nameMap`: a map from each node's name to that node's position in `nodeList`.

A `Node` has a fixed name and a list of children in insertion order. Nodes
compare by name only. Adding an edge appends the child even when it is
already there, so the graph is a multigraph. Removing an edge takes out the
first equal child. Every query or update that names an unknown node answers
`false` or an empty list and changes nothing.

`saveToFile` writes:

- the node count;
- one name per line;
- one line per node: its child count, then its children's positions, each
  number followed by a space.

`readFromFile` reads the same format back with `java.util.Scanner`.

The model has two layers.

- **Object model.** The classes are Dafny classes. `Graph.Valid()` is the
  representation invariant:
  - the name map and the list agree;
  - names are unique;
  - every child is a node of the graph.

  Every updating method keeps `Valid()` and states its whole effect.
- **File format.** The format is a pair of pure functions:
  - `Serialize` is what `saveToFile` writes.
  - `Parse` is what `readFromFile` reads, scanner call by scanner call,
    with the error each failing call raises.

  The imperative `SaveToFile` and `ReadFromFile` methods have the source's
  loops, and they are proved equal to these functions. The lemmas then
  prove the following about the functions:
  - the round trip;
  - the shape of anything that parses;
  - the two rejections the source makes: a repeated name, and a token
    that is not an `int` where the node count, a child count or a child
    position is due.

The Java library calls the core relies on are pure functions:

- `List.indexOf`, `contains` and `remove(Object)` are `Lists.IndexOf` and
  `Lists.RemoveFirst`.
- `Scanner.nextInt`, `nextLine` and `skip("\\s+")` are functions in
  `Scanning` from the remaining input to the value read and the input after
  it.
- `String.valueOf(int)` is `Scanning.NatToString`.
- `String.hashCode` uses 32-bit wrap-around, modelled in `JavaInt`.

Files are replaced by their text. `SaveToFile` returns the text it would
write. `ReadFromFile` takes the text it would read.

The reader skips every `\s` character after the count, including leading
blanks of the first name and a blank first line. So the round trip holds
only when the first name is nonempty and does not start with `\s`. Two
lemmas show what happens otherwise.
`GraphFormat.FirstNameLosesLeadingSpaces` covers a first name made of a
`\s` run followed by a nonempty rest that starts with another character
and is not among the other names. The same graph is read back, with the
first name stripped of the run. `GraphFormat.BlankFirstNameFails` covers
an empty first name: the names are read one line late. A saved file of
two childless nodes, named `""` and `b`, is rejected for missing input
when `b` is nonempty, does not start with `\s`, has no character at
which `nextLine` ends a line, and is not the child line `0 `. The model states no outcome for the remaining cases.

`NodeQuery.java:11` declares a `removeNode` that `Graph` does not
implement, so the model has no way to remove a node. Nodes have no numeric
identity and no list of incoming edges: a node is known by its name and its
position in `nodeList`, and only its outgoing children are recorded. The
model follows `Graph.java` and `Node.java`.

## Model

| member | source | states |
|---|---|---|
| JavaInt.Wrap | src/com/jetbrains/test/entities/Node.java:38-41 | Java `int` arithmetic: the result is in range, congruent to the exact value modulo 2^32, and equal to it when it already fits |
| Scanning.NatToString | src/com/jetbrains/test/entities/Graph.java:29 | `String.valueOf` of a count or position is a nonempty run of decimal digits |
| Scanning.DigitsValueOfNatToString | src/com/jetbrains/test/entities/Graph.java:29 | the digits written for `n` have the value `n` |
| Scanning.ParseInt | src/com/jetbrains/test/entities/Graph.java:53 | a token `nextInt` accepts is nonempty and its value is within `int` range |
| Scanning.ParseIntOfNatToString | src/com/jetbrains/test/entities/Graph.java:29-53 | the digits written for any `n` up to `Integer.MAX_VALUE` parse back to `n` |
| Scanning.DropWhile | src/com/jetbrains/test/entities/Graph.java:54 | dropping leading characters never lengthens the input |
| Scanning.DropWhileSplits | src/com/jetbrains/test/entities/Graph.java:54 | exactly the longest prefix satisfying the predicate is dropped, and the rest is kept as it was |
| Scanning.TokenLength | src/com/jetbrains/test/entities/Graph.java:53 | a token never extends past the input |
| Scanning.TokenLengthStops | src/com/jetbrains/test/entities/Graph.java:53-67 | a token stops at the first delimiter or at the end of input |
| Scanning.IsDelimiter | src/com/jetbrains/test/entities/Graph.java:53-67 | the characters the Scanner's default delimiter `\p{javaWhitespace}+` separates tokens at, which `nextInt` skips: the `\s` characters and U+001C to U+001F, the ASCII part of `Character.isWhitespace` (see `Scanning.IsDelimiter` under Left out) |
| Scanning.NextToken | src/com/jetbrains/test/entities/Graph.java:53-67 | the token `nextInt` reads: the leading delimiters are skipped, then the longest run of non-delimiters is taken, with the input after it; nothing when only delimiters remain |
| Scanning.NextTokenSplits | src/com/jetbrains/test/entities/Graph.java:53-67 | there is no token exactly when only delimiters remain; a token is a nonempty run of non-delimiters followed by a delimiter or the end, and reading one consumes input |
| Scanning.NextInt | src/com/jetbrains/test/entities/Graph.java:53-67 | `nextInt` yields only values within `int` range |
| Scanning.LineLength | src/com/jetbrains/test/entities/Graph.java:57 | a line ends at the first line break or at the end of input |
| Scanning.NextLine | src/com/jetbrains/test/entities/Graph.java:57 | `nextLine` fails exactly at the end of input; otherwise it returns everything up to the first line break and the input after that break, or the whole input when there is no break |
| Scanning.IsLineTerminator | src/com/jetbrains/test/entities/Graph.java:57 | the characters at which `nextLine` ends a line: `\n`, `\r`, U+0085, U+2028 and U+2029 |
| Scanning.NoLineTerminator | src/com/jetbrains/test/entities/Graph.java:57 | a string with none of the characters at which `nextLine` ends a line (`\n`, `\r`, U+0085, U+2028, U+2029) has no `\n` |
| Scanning.IsSpace | src/com/jetbrains/test/entities/Graph.java:54 | the `\s` class that `skip("\\s+")` consumes: space, tab, `\n`, vertical tab, form feed and `\r` |
| Scanning.SkipSpaces | src/com/jetbrains/test/entities/Graph.java:54 | `skip("\\s+")` fails exactly when no `\s` character comes next; otherwise it consumes input |
| Scanning.NextIntOfNatToString | src/com/jetbrains/test/entities/Graph.java:29-67 | a number as `saveToFile` writes it, between delimiters, is read back by `nextInt` together with the input after it |
| Scanning.NextLineOfLine | src/com/jetbrains/test/entities/Graph.java:32-57 | a name written as a line is read back by `nextLine`, and the read continues after the line break |
| Scanning.SkipSpaceRun | src/com/jetbrains/test/entities/Graph.java:54 | `skip("\\s+")` consumes a whole nonempty `\s` run and stops at the next other character |
| Lists.IndexOf | src/com/jetbrains/test/entities/Node.java:26-28 | `indexOf` is -1 exactly when the element is absent; otherwise it is the position of the first equal element |
| Lists.RemoveFirst | src/com/jetbrains/test/entities/Node.java:26-28 | `remove(Object)`: the list without its first element equal to the argument, or the list unchanged when there is none |
| Lists.RemoveFirstCount | src/com/jetbrains/test/entities/Node.java:26-28 | `remove(Object)` takes out exactly one occurrence when there is one and nothing otherwise, as multisets |
| Lists.RemoveFirstKeepsOrder | src/com/jetbrains/test/entities/Node.java:26-28 | the elements before the removed one keep their positions; those after it shift one place forward |
| Lists.RemoveFirstAfterAppend | src/com/jetbrains/test/entities/Node.java:22-28 | adding a child and then removing it removes the first equal one: afterwards the child is present exactly when it was present before the add |
| Nodes.Node.constructor | src/com/jetbrains/test/entities/Node.java:9-12 | a new node has the given name and no children |
| Nodes.Node.GetValue | src/com/jetbrains/test/entities/Node.java:6-16 | the name is the constructor's, on every call |
| Nodes.Node.GetNodes | src/com/jetbrains/test/entities/Node.java:18-20 | the children, as a value that reads the node and changes nothing |
| Nodes.Node.AddNode | src/com/jetbrains/test/entities/Node.java:22-24 | the child is appended at the end, even if an equal one is there, and the result is always true |
| Nodes.Node.RemoveNode | src/com/jetbrains/test/entities/Node.java:26-28 | true exactly when some child has the name; then exactly the first such child is removed, keeping the order of the others; otherwise nothing changes |
| Nodes.Node.Equals | src/com/jetbrains/test/entities/Node.java:30-36 | equal exactly when the other node is non-null and has the same name, whatever the children |
| Nodes.Node.HashCode | src/com/jetbrains/test/entities/Node.java:38-41 | `Objects.hash(value)` is an `int` |
| Nodes.Values | src/com/jetbrains/test/entities/Graph.java:146-151 | mapping nodes to names keeps length and order |
| Nodes.StringHash | src/com/jetbrains/test/entities/Node.java:38-41 | `String.hashCode` is an `int` |
| Nodes.EqualsIsEquivalence | src/com/jetbrains/test/entities/Node.java:30-36 | node equality is reflexive, symmetric and transitive |
| Nodes.EqualNodesHaveEqualHashCodes | src/com/jetbrains/test/entities/Node.java:30-41 | equal nodes have equal hash codes |
| GraphFormat.Lines | src/com/jetbrains/test/entities/Graph.java:31-34 | the names loop's text: each name followed by a line break, in list order |
| GraphFormat.IndexList | src/com/jetbrains/test/entities/Graph.java:37-39 | the positions loop's text: each child position in decimal followed by a space, in order |
| GraphFormat.RowLine | src/com/jetbrains/test/entities/Graph.java:36-40 | one node's child line: the child count and a space, the positions each followed by a space, then a line break |
| GraphFormat.RowLines | src/com/jetbrains/test/entities/Graph.java:35-41 | the child-lines loop's text: one child line per row, in order |
| GraphFormat.Serialize | src/com/jetbrains/test/entities/Graph.java:29-41 | the whole file: the node count and a line break, the names one per line, then one child line per node |
| GraphFormat.LinesAppend | src/com/jetbrains/test/entities/Graph.java:31-34 | writing one more name appends that name and a line break |
| GraphFormat.IndexListAppend | src/com/jetbrains/test/entities/Graph.java:37-39 | writing one more child position appends it and a space |
| GraphFormat.RowLinesAppend | src/com/jetbrains/test/entities/Graph.java:35-41 | writing one more node's child line appends that line |
| GraphFormat.LinesPrefix | src/com/jetbrains/test/entities/Graph.java:31-34 | the names loop's text after `i + 1` names extends its text after `i` names by name `i` |
| GraphFormat.IndexListPrefix | src/com/jetbrains/test/entities/Graph.java:37-39 | the positions loop's text after `j + 1` children extends its text after `j` children by position `j` |
| GraphFormat.RowLinesPrefix | src/com/jetbrains/test/entities/Graph.java:35-41 | the child-lines loop's text after `i + 1` nodes extends its text after `i` nodes by the line of node `i` |
| GraphFormat.FromScanError | src/com/jetbrains/test/entities/Graph.java:53-71 | how a scanner failure becomes a read error (`ReadError`): a token that is not an `int` (`InputMismatchException`, caught at line 70) is a wrong token type, and the end of input (`NoSuchElementException`, which escapes) is missing input |
| GraphFormat.ReadNames | src/com/jetbrains/test/entities/Graph.java:56-63 | the names loop: `nextLine` until `count` names are read (none when `count` is not positive), failing at the end of input or on a name read before, with the input after the last name |
| GraphFormat.ReadIndices | src/com/jetbrains/test/entities/Graph.java:66-68 | the positions loop: `nextInt` until the row has `count` positions, failing with the scanner's error or on a position outside `0 .. n - 1`, with the input after the last position |
| GraphFormat.ReadRow | src/com/jetbrains/test/entities/Graph.java:65-68 | one pass of the outer reading loop: `nextInt` for the child count, then that many positions |
| GraphFormat.ReadChildren | src/com/jetbrains/test/entities/Graph.java:64-69 | the outer reading loop: one row per node, stopping at the first row that fails, with its error |
| GraphFormat.Parse | src/com/jetbrains/test/entities/Graph.java:53-69 | `readFromFile` on text: `nextInt` for the count, `skip("\\s+")`, the names by `nextLine` refusing a repeat, then per name a `nextInt` count and that many in-range `nextInt` positions; the first failing step's error; text after the last row is not read |
| GraphFormat.ReadNamesStep | src/com/jetbrains/test/entities/Graph.java:56-63 | one pass of the names loop: a new name is recorded and reading goes on after its line |
| GraphFormat.ReadIndicesStep | src/com/jetbrains/test/entities/Graph.java:66-68 | one pass of the positions loop: an in-range position is recorded and reading goes on after it |
| GraphFormat.ReadChildrenStep | src/com/jetbrains/test/entities/Graph.java:64-69 | one pass of the child-lines loop: a row is recorded and reading goes on after it |
| GraphFormat.ReadNamesShape | src/com/jetbrains/test/entities/Graph.java:56-63 | the names read are distinct, as many as the count asks (none for a count that is not positive), and extend those read before; the only failures are the end of input and a repeated name |
| GraphFormat.ReadIndicesShape | src/com/jetbrains/test/entities/Graph.java:65-68 | a row has as many positions as its count asks, each naming a node; a failure is the end of input, a wrong token type, or the out-of-range position that was read |
| GraphFormat.ReadChildrenShape | src/com/jetbrains/test/entities/Graph.java:64-69 | there is one row per node and every position names a node; reading rows never reports a repeated name |
| GraphFormat.ParseWellFormed | src/com/jetbrains/test/entities/Graph.java:49-69 | whatever `readFromFile` accepts has one child row per name, distinct names, and child positions that all name nodes |
| GraphFormat.ReadNamesOfLines | src/com/jetbrains/test/entities/Graph.java:31-63 | distinct names without line breaks, written one per line, are all read back in order, and reading stops right after them |
| GraphFormat.ReadIndicesOfList | src/com/jetbrains/test/entities/Graph.java:37-68 | in-range positions written each after a space are read back in order, and reading goes on after them, whether or not the count asks for more |
| GraphFormat.RowLineRead | src/com/jetbrains/test/entities/Graph.java:35-68 | a child line as written is read back as the same row |
| GraphFormat.ReadChildrenOfRows | src/com/jetbrains/test/entities/Graph.java:35-69 | all child lines as written are read back as the same rows, in order |
| GraphFormat.CountLineRead | src/com/jetbrains/test/entities/Graph.java:29-53 | the count line as written is read back by `nextInt`, which leaves the line break to the skip |
| GraphFormat.ReadAfterCount | src/com/jetbrains/test/entities/Graph.java:53-69 | once the count is read and the `\s` run after it skipped, names and child lines as written are read back as the listing they came from |
| GraphFormat.NamesReadBack | src/com/jetbrains/test/entities/Graph.java:31-63 | the names of a readable listing, written one per line, are read back in order, and reading stops right after them |
| GraphFormat.RowsReadBack | src/com/jetbrains/test/entities/Graph.java:35-69 | the child lines of a readable listing, as written, are read back as its rows |
| GraphFormat.RoundTrip | src/com/jetbrains/test/entities/Graph.java:26-69 | reading what `saveToFile` writes gives back the same names in the same order and the same child positions for every node, when counts fit in an `int`, no name contains a character at which `nextLine` ends a line, and the first name is nonempty and does not start with `\s` |
| GraphFormat.FirstNameLosesLeadingSpaces | src/com/jetbrains/test/entities/Graph.java:29-57 | for a well-formed, readable listing whose first name is a nonempty `\s` run followed by a nonempty rest that starts with another character and is not one of the other names, reading back gives that rest as the first name and everything else unchanged, so the round trip needs its restriction on the first name |
| GraphFormat.BlankFirstNameFails | src/com/jetbrains/test/entities/Graph.java:29-69 | for every name `b` that is nonempty, does not start with `\s`, has no character at which `nextLine` ends a line and is not `0 `, the saved file of two childless nodes named `""` and `b` is rejected for missing input: the skip after the count takes the blank first line, so `b` and the first child line are read as the two names, and the second child line is missing |
| GraphFormat.NotAnIntRead | src/com/jetbrains/test/entities/Graph.java:53-71 | `nextInt` fails with a token-type mismatch on a token that is not an `int`, after any delimiters |
| GraphFormat.CountNotAnInt | src/com/jetbrains/test/entities/Graph.java:53-71 | a file whose first token, after any delimiters, is not an `int` is rejected with a wrong token type; a token is "not an `int`" as `Scanning.ParseInt` reads it, so group separators and non-ASCII digits and delimiters, which `nextInt` also accepts, fall outside this claim (see `Scanning.ParseInt` and `Scanning.IsDelimiter` under Left out) |
| GraphFormat.RowsThenFailingRow | src/com/jetbrains/test/entities/Graph.java:64-69 | child lines as written, then a child line that fails to read while the count still asks for one, make reading the rows fail with that line's error |
| GraphFormat.ReadChildrenFails | src/com/jetbrains/test/entities/Graph.java:64-69 | a child line that fails to read, while lines are still due, fails the rows with its error |
| GraphFormat.RowsStep | src/com/jetbrains/test/entities/Graph.java:35-69 | the first child line as written is read as its row, and reading goes on after it |
| GraphFormat.CountTokenFails | src/com/jetbrains/test/entities/Graph.java:65-71 | a child count that is not an `int` fails its child line with a wrong token type |
| GraphFormat.PositionTokenFails | src/com/jetbrains/test/entities/Graph.java:65-71 | a child line whose count asks for more positions than are written before a token that is not an `int` fails with a wrong token type |
| GraphFormat.NotAnIntAfterPositions | src/com/jetbrains/test/entities/Graph.java:66-71 | while the count still asks for a position, a token that is not an `int` fails the row with a wrong token type |
| GraphFormat.NamesThenRows | src/com/jetbrains/test/entities/Graph.java:53-69 | for a well-formed, saveable listing (counts within `int` range, names free of the characters at which `nextLine` ends a line, a first name that is nonempty and does not start with `\s`), the count and names as written are read back, and the outcome is decided by the child lines after them |
| GraphFormat.ParseFailsAtRow | src/com/jetbrains/test/entities/Graph.java:49-69 | for a well-formed, saveable listing (counts within `int` range, names free of the characters at which `nextLine` ends a line, a first name that is nonempty and does not start with `\s`), a file written with only its first `k` child lines, then a child line that fails to read, is rejected with that line's error |
| GraphFormat.ChildCountNotAnInt | src/com/jetbrains/test/entities/Graph.java:64-71 | for a well-formed, saveable listing (counts within `int` range, names free of the characters at which `nextLine` ends a line, a first name that is nonempty and does not start with `\s`), a file as written up to its `k`-th child line, with a non-`int` token where that line's count is due, is rejected with a wrong token type; a token is "not an `int`" as `Scanning.ParseInt` reads it, so group separators and non-ASCII digits and delimiters, which `nextInt` also accepts, fall outside this claim (see `Scanning.ParseInt` and `Scanning.IsDelimiter` under Left out) |
| GraphFormat.ChildPositionNotAnInt | src/com/jetbrains/test/entities/Graph.java:64-71 | for a well-formed, saveable listing (counts within `int` range, names free of the characters at which `nextLine` ends a line, a first name that is nonempty and does not start with `\s`), a file as written up to its `k`-th child line, whose count asks for more positions than are written before a non-`int` token, is rejected with a wrong token type; a token is "not an `int`" as `Scanning.ParseInt` reads it, so group separators and non-ASCII digits and delimiters, which `nextInt` also accepts, fall outside this claim (see `Scanning.ParseInt` and `Scanning.IsDelimiter` under Left out) |
| GraphFormat.ReadNamesFindsRepeat | src/com/jetbrains/test/entities/Graph.java:56-61 | among names read one per line, none containing a character at which `nextLine` ends a line, a repeat makes reading fail with a repeated name, and the name reported is one of them |
| GraphFormat.RepeatedNameRejected | src/com/jetbrains/test/entities/Graph.java:53-61 | a file whose names, free of the characters at which `nextLine` ends a line and with a first name that is nonempty and does not start with `\s`, repeat one is rejected with a repeated name taken from the file, whatever follows the names |
| GraphFormat.NamesFail | src/com/jetbrains/test/entities/Graph.java:53-63 | when the first name is nonempty and does not start with `\s` and the count fits in an `int`, a failure while reading the names after the count as written is the outcome of reading the whole file |
| Graphs.IndexMap | src/com/jetbrains/test/entities/Graph.java:56-63 | the map filled by the names loop holds exactly the names read |
| Graphs.IndexMapAppend | src/com/jetbrains/test/entities/Graph.java:58 | registering one more name maps it to its position |
| Graphs.IndexMapPositions | src/com/jetbrains/test/entities/Graph.java:56-63 | with distinct names, each name maps to its own position |
| Graphs.Graph.Valid | src/com/jetbrains/test/entities/Graph.java:14-15 | the invariant the operations keep: each node of `nodeList` is registered in `nameMap` under its own position, every registered name is that of the node at its position, and every child is a node of the graph |
| Graphs.Graph.NodesDistinct | src/com/jetbrains/test/entities/Graph.java:14-86 | while the name map and the list agree, no node is at two positions |
| Graphs.Graph.CreateEmpty | src/com/jetbrains/test/entities/Graph.java:17-24 | a new graph has no nodes, an empty name map, and satisfies the invariant |
| Graphs.Graph.GetAllNodes | src/com/jetbrains/test/entities/Graph.java:146-151 | the names of the nodes in list order: distinct, and exactly the registered names, each registered under its position |
| Graphs.Graph.GetNode | src/com/jetbrains/test/entities/Graph.java:101-108 | null exactly for an unregistered name; otherwise the graph's node with that name |
| Graphs.Graph.GetChildren | src/com/jetbrains/test/entities/Graph.java:90-99 | empty for an unknown name; otherwise the names of the node's children in order with repeats, all of them registered |
| Graphs.Graph.ChildNamesRegistered | src/com/jetbrains/test/entities/Graph.java:90-99 | every child name of a node of the graph is registered |
| Graphs.Graph.IsEdgeBetween | src/com/jetbrains/test/entities/Graph.java:139-144 | true exactly when both nodes are non-null and some child of the first equals the second |
| Graphs.Graph.IsEdge | src/com/jetbrains/test/entities/Graph.java:134-137 | true exactly when both names are registered and the second is among the children of the first |
| Graphs.Graph.AddNode | src/com/jetbrains/test/entities/Graph.java:80-88 | true exactly for an unregistered name; then a new childless node is appended at position `old size`, the name is mapped to that position, and `getAllNodes` gains the name at its end; otherwise nothing changes; the invariant is kept |
| Graphs.Graph.AddEdgeBetween | src/com/jetbrains/test/entities/Graph.java:115-120 | with both nodes non-null, the second is appended to the children of the first and the result is true; otherwise false and no change |
| Graphs.Graph.AddEdge | src/com/jetbrains/test/entities/Graph.java:110-113 | true exactly when both names are registered; then the target is appended as the last child even if already present, `getChildren` ends with it, `isEdge` holds, and no other child list changes; with an unknown name nothing changes; the invariant is kept |
| Graphs.Graph.RemoveEdgeBetween | src/com/jetbrains/test/entities/Graph.java:127-132 | true exactly when there was such an edge; then exactly the first equal child is removed; otherwise no change |
| Graphs.Graph.RemoveEdge | src/com/jetbrains/test/entities/Graph.java:122-125 | true exactly when the edge existed; with both names registered, the children lose exactly the first occurrence of the target, in order; no other child list changes; on false nothing changes; the invariant is kept |
| Graphs.Graph.PositionOfMember | src/com/jetbrains/test/entities/Graph.java:38 | a node of the graph is found again through its name's position |
| Graphs.Graph.ChildrenPositioned | src/com/jetbrains/test/entities/Graph.java:35-41 | every child is found again through its name's position |
| Graphs.Graph.PositionsOf | src/com/jetbrains/test/entities/Graph.java:37-39 | the positions written for a child list, one per child, in order |
| Graphs.Graph.Rows | src/com/jetbrains/test/entities/Graph.java:35-41 | one row of positions per node, in order |
| Graphs.Graph.ToListing | src/com/jetbrains/test/entities/Graph.java:26-41 | the graph as its file records it: well formed, the names of `getAllNodes`, and for every node one position per child that holds exactly that child |
| Graphs.Graph.RowsPositioned | src/com/jetbrains/test/entities/Graph.java:35-41 | every written position is in range and holds the child it was written for |
| Graphs.Graph.SaveToFile | src/com/jetbrains/test/entities/Graph.java:26-47 | the text written is the serialization of the graph's listing |
| Graphs.Graph.WriteNames | src/com/jetbrains/test/entities/Graph.java:29-34 | the names loop writes the names of `getAllNodes`, each followed by a line break |
| Graphs.Graph.WriteChildLines | src/com/jetbrains/test/entities/Graph.java:35-41 | the child-lines loop writes one child line per node, in order |
| Graphs.Graph.WriteChildLine | src/com/jetbrains/test/entities/Graph.java:36-40 | one child line: the count, then each child's position, each followed by a space, then a line break |
| Graphs.Graph.SavedListingReadsBack | src/com/jetbrains/test/entities/Graph.java:26-78 | what a valid graph saves is read back as the same listing, when the round-trip restrictions hold |
| Graphs.Graph.ListingDeterminesQueries | src/com/jetbrains/test/entities/Graph.java:26-151 | two valid graphs with the same listing give the same `getAllNodes` and the same `getChildren` for every name, so a read-back graph answers every query like the saved one |
| Graphs.Graph.ReadFromFile | src/com/jetbrains/test/entities/Graph.java:49-78 | succeeds exactly when `Parse` does, and fails with the same error; on success the result is a new valid graph of new nodes whose listing is what was parsed |
| Graphs.Graph.NamesRegistered | src/com/jetbrains/test/entities/Graph.java:56-63 | childless nodes with distinct names, registered by the names loop, form a valid graph |
| Graphs.Graph.ReadNodes | src/com/jetbrains/test/entities/Graph.java:55-63 | the names loop succeeds exactly when `ReadNames` does, failing with the same error; on success the graph is valid, its names are those read, and every node is new and childless |
| Graphs.Graph.ReadEdges | src/com/jetbrains/test/entities/Graph.java:64-69 | the child-lines loop succeeds exactly when `ReadChildren` does, failing with the same error; on success the graph is valid and its listing has the rows read |
| Graphs.Graph.RowsRead | src/com/jetbrains/test/entities/Graph.java:64-69 | children set from in-range rows keep the graph valid, and the listing has those rows |
| Graphs.Graph.NodesAt | src/com/jetbrains/test/entities/Graph.java:67 | the node at each position of a row, in order |
| Graphs.Graph.PositionsOfNodesAt | src/com/jetbrains/test/entities/Graph.java:67 | writing the positions of the nodes at a row's positions gives the row back |
| Graphs.Graph.ReadRowInto | src/com/jetbrains/test/entities/Graph.java:65-68 | one pass of the outer loop succeeds exactly when `ReadRow` does, failing with the same error; on success the parent's children are the nodes at the positions read, and the input after them is returned |

## Left out

- The interactive shell (`Main.java`) and the `NodeQuery` interface. The shell is console I/O and session flags. The interface has no logic.
- Files and streams. The path, the UTF-8 reader and writer, try-with-resources closing, `SecurityException` and the wrapping `IOException`s with their messages (Graph.java:27-28, 42-46, 51-52, 72-76) are not modelled. `SaveToFile` returns the text; `ReadFromFile` takes it.
- Graphs.Graph.ReadFromFile: errors are the values of `ReadError`, not Java exceptions. An out-of-range position or the end of input escapes the Java method as an unchecked exception. A wrong token type and a repeated name become an `IOException`. The model reports all four the same way.
- Graphs.Graph.ReadFromFile: a failed read returns only the error. The partly filled graph that Java discards is not returned.
- Graphs.Graph.GetNode: the `System.err` message for an unknown name is not modelled.
- Null arguments. `Objects.requireNonNull` on names and children throws; the model's names and nodes are never null.
- Scanning.NextLine: ends a line only at `\n`, as `newLine()` writes it on Unix-like systems. Platform separators are not modelled. Java's `nextLine` also ends a line at `\r\n`, `\r`, U+0085, U+2028 and U+2029. The round trip excludes all of these from names (`GraphFormat.Readable`), so it promises only what the source delivers. How the source reads a file that contains them is not modelled.
- Scanning.IsDelimiter covers the ASCII part of `Character.isWhitespace`. Non-ASCII separators are not delimiters in the model.
- Scanning.ParseInt accepts only an optional sign and ASCII digits. Locale group separators and non-ASCII digits, which `nextInt` also accepts, are not modelled.
- Nodes.StringHash works on Dafny characters. UTF-16 surrogate pairs are not modelled.
- GraphFormat.RoundTrip requires counts within `int` range and names without any character at which `nextLine` ends a line. A saved graph that breaks these cannot be read back by the source either.
- Graphs.Graph.AddNode: the `int` overflow of `nodeList.size()` past 2^31-1 nodes is not modelled.
