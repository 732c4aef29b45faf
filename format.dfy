/** The text format of a saved graph, as pure functions:

      <node count>
      <name of node 0>
      ...
      <name of node N-1>
      <child count of node 0> <child index> ... <child index>
      ...

    Every child line ends with a space after its last number. `Serialize` is
    what `Graph.saveToFile` writes; `Parse` is what `Graph.readFromFile`
    reads, step for step the scanner calls it makes, with the error each
    failing step raises. */
module GraphFormat {
  import opened Results
  import opened Lists
  import opened Scanning
  import JavaInt

  /** A graph as the file records it: names by position, and for each
      position the positions of its children. */
  datatype Listing = Listing(names: seq<string>, children: seq<seq<nat>>)

  /** One child row per name, unique names, child positions that name a node. */
  ghost predicate WellFormed(l: Listing) {
    && |l.children| == |l.names|
    && Distinct(l.names)
    && (forall i, k :: 0 <= i < |l.children| && 0 <= k < |l.children[i]| ==> l.children[i][k] < |l.names|)
  }

  /** What reading needs of the text after the count to give the listing
      back: counts that fit in an `int` and names in which `nextLine` finds
      no end of line. */
  ghost predicate Readable(l: Listing) {
    && |l.names| <= JavaInt.MAX
    && (forall i :: 0 <= i < |l.children| ==> |l.children[i]| <= JavaInt.MAX)
    && (forall i :: 0 <= i < |l.names| ==> NoLineTerminator(l.names[i]))
  }

  /** What writing must respect for reading to give the same graph back:
      a readable listing whose first name does not start with `\s` (the
      reader skips `\s` characters right after the count). */
  ghost predicate Saveable(l: Listing) {
    && Readable(l)
    && (l.names != [] ==> l.names[0] != [] && !IsSpace(l.names[0][0]))
  }

  // ---------------------------------------------------------------------
  // Writing

  /** The given lines, each followed by a line break. */
  function Lines(ls: seq<string>): string {
    if ls == [] then "" else ls[0] + "\n" + Lines(ls[1..])
  }

  /** The child positions, each followed by a space. */
  function IndexList(row: seq<nat>): string {
    if row == [] then "" else NatToString(row[0]) + " " + IndexList(row[1..])
  }

  /** The child line of one node: the child count and a space, then the
      positions, then a line break. */
  function RowLine(row: seq<nat>): string {
    NatToString(|row|) + " " + IndexList(row) + "\n"
  }

  /** One child line per row. */
  function RowLines(rows: seq<seq<nat>>): string {
    if rows == [] then "" else RowLine(rows[0]) + RowLines(rows[1..])
  }

  function Serialize(l: Listing): string {
    NatToString(|l.names|) + "\n" + Lines(l.names) + RowLines(l.children)
  }

  lemma {:induction false} LinesAppend(ls: seq<string>, line: string)
    ensures Lines(ls + [line]) == Lines(ls) + line + "\n"
  {
    if ls != [] {
      assert (ls + [line])[1..] == ls[1..] + [line];
      LinesAppend(ls[1..], line);
    } else {
      assert [] + [line] == [line];
    }
  }

  lemma {:induction false} IndexListAppend(row: seq<nat>, index: nat)
    ensures IndexList(row + [index]) == IndexList(row) + NatToString(index) + " "
  {
    if row != [] {
      assert (row + [index])[1..] == row[1..] + [index];
      IndexListAppend(row[1..], index);
    } else {
      assert [] + [index] == [index];
    }
  }

  lemma {:induction false} RowLinesAppend(rows: seq<seq<nat>>, row: seq<nat>)
    ensures RowLines(rows + [row]) == RowLines(rows) + RowLine(row)
  {
    var t := rows + [row];
    if rows != [] {
      assert t[0] == rows[0] && t[1..] == rows[1..] + [row];
      RowLinesAppend(rows[1..], row);
      ConcatAssoc(RowLine(rows[0]), RowLines(rows[1..]), RowLine(row));
    } else {
      assert t == [row];
    }
  }

  /** Concatenation is associative; stated over plain sequences so that
      regrouping a written text costs the solver nothing. */
  lemma ConcatAssoc<T>(a: seq<T>, b: seq<T>, c: seq<T>)
    ensures a + (b + c) == a + b + c
  {
  }

  /** Writing one more name of `names`. */
  lemma LinesPrefix(names: seq<string>, i: nat)
    requires i < |names|
    ensures Lines(names[..i + 1]) == Lines(names[..i]) + names[i] + "\n"
  {
    assert names[..i + 1] == names[..i] + [names[i]];
    LinesAppend(names[..i], names[i]);
  }

  /** Writing one more position of `row`. */
  lemma IndexListPrefix(row: seq<nat>, j: nat)
    requires j < |row|
    ensures IndexList(row[..j + 1]) == IndexList(row[..j]) + NatToString(row[j]) + " "
  {
    assert row[..j + 1] == row[..j] + [row[j]];
    IndexListAppend(row[..j], row[j]);
  }

  /** Writing one more child line of `rows`. */
  lemma RowLinesPrefix(rows: seq<seq<nat>>, i: nat)
    requires i < |rows|
    ensures RowLines(rows[..i + 1]) == RowLines(rows[..i]) + RowLine(rows[i])
  {
    assert rows[..i + 1] == rows[..i] + [rows[i]];
    RowLinesAppend(rows[..i], rows[i]);
  }

  // ---------------------------------------------------------------------
  // Reading

  datatype ReadError =
    | WrongTokenType                 // a count or position that is not an `int`
    | DuplicateName(name: string)    // a name read a second time
    | MissingInput                   // the input ends too early
    | IndexOutOfBounds(index: int)   // a child position that names no node

  function FromScanError(e: ScanError): ReadError {
    match e
    case NoSuchElement => MissingInput
    case InputMismatch => WrongTokenType
  }

  /** Reads names, one per line, until `count` names have been read (none
      when `count` is not positive), refusing a name read before. */
  function ReadNames(s: string, count: int, names: seq<string>): Result<(seq<string>, string), ReadError>
    decreases count - |names|
  {
    if |names| >= count then Success((names, s))
    else
      match NextLine(s)
      case None => Failure(MissingInput)
      case Some((name, rest)) =>
        if name in names then Failure(DuplicateName(name))
        else
          ReadNames(rest, count, names + [name])
  }

  /** Reads child positions until the row has `count` of them (none when
      `count` is not positive); each must name one of the `n` nodes. */
  function ReadIndices(s: string, n: nat, count: int, row: seq<nat>): Result<(seq<nat>, string), ReadError>
    decreases count - |row|
  {
    if |row| >= count then Success((row, s))
    else
      match NextInt(s)
      case Failure(e) => Failure(FromScanError(e))
      case Success((index, rest)) =>
        if 0 <= index < n then
          ReadIndices(rest, n, count, row + [index])
        else Failure(IndexOutOfBounds(index))
  }

  /** Reads one node's child line: the child count, then that many positions. */
  function ReadRow(s: string, n: nat): Result<(seq<nat>, string), ReadError> {
    match NextInt(s)
    case Failure(e) => Failure(FromScanError(e))
    case Success((count, rest)) => ReadIndices(rest, n, count, [])
  }

  /** Reads one row per node until there are `n` rows: a child count, then
      that many child positions. */
  function ReadChildren(s: string, n: nat, rows: seq<seq<nat>>): Result<seq<seq<nat>>, ReadError>
    decreases n - |rows|
  {
    if |rows| >= n then Success(rows)
    else
      match ReadRow(s, n)
      case Failure(e) => Failure(e)
      case Success((row, rest)) =>
        ReadChildren(rest, n, rows + [row])
  }

  /** The count, the names after the `\s` characters that follow it, then
      the child rows. Whatever comes after the last row is not read. */
  function Parse(text: string): Result<Listing, ReadError>
  {
    match NextInt(text)
    case Failure(e) => Failure(FromScanError(e))
    case Success((count, afterCount)) =>
      match SkipSpaces(afterCount)
      case None => Failure(MissingInput)
      case Some(start) =>
        match ReadNames(start, count, [])
        case Failure(e) => Failure(e)
        case Success((names, afterNames)) =>
          match ReadChildren(afterNames, |names|, [])
          case Failure(e) => Failure(e)
          case Success(children) => Success(Listing(names, children))
  }

  /** One name read: the rest of the names are read from the next line on. */
  lemma ReadNamesStep(s: string, count: int, names: seq<string>, name: string, rest: string)
    requires |names| < count && NextLine(s) == Some((name, rest)) && name !in names
    ensures ReadNames(s, count, names) == ReadNames(rest, count, names + [name])
  {
  }

  /** One child position read: the rest of the row is read after it. */
  lemma ReadIndicesStep(s: string, n: nat, count: int, row: seq<nat>, index: int, rest: string)
    requires |row| < count && NextInt(s) == Success((index, rest)) && 0 <= index < n
    ensures ReadIndices(s, n, count, row) == ReadIndices(rest, n, count, row + [index])
  {
  }

  /** One row read: the remaining rows are read after it. */
  lemma ReadChildrenStep(s: string, n: nat, rows: seq<seq<nat>>, row: seq<nat>, rest: string)
    requires |rows| < n
    requires ReadRow(s, n) == Success((row, rest))
    ensures ReadChildren(s, n, rows) == ReadChildren(rest, n, rows + [row])
  {
  }

  /** Reading names yields distinct names, as many as asked for, after those
      read before; it fails only at the end of input or on a repeated name. */
  lemma {:induction false} ReadNamesShape(s: string, count: int, names: seq<string>)
    requires Distinct(names)
    ensures var r := ReadNames(s, count, names);
      && (r.Success? ==>
            && Distinct(r.value.0)
            && |r.value.0| == (if count < |names| then |names| else count)
            && names <= r.value.0)
      && (r.Failure? ==> r.error == MissingInput || r.error.DuplicateName?)
    decreases count - |names|
  {
    if |names| < count {
      match NextLine(s)
      case None =>
      case Some((name, rest)) =>
        if name !in names {
          ReadNamesShape(rest, count, names + [name]);
        }
    }
  }

  /** Reading a row yields as many positions as asked for, each naming one of
      the `n` nodes; a position out of range is the one reported. */
  lemma {:induction false} ReadIndicesShape(s: string, n: nat, count: int, row: seq<nat>)
    requires forall k :: 0 <= k < |row| ==> row[k] < n
    ensures var r := ReadIndices(s, n, count, row);
      && (r.Success? ==>
            && |r.value.0| == (if count < |row| then |row| else count)
            && row <= r.value.0
            && (forall k :: 0 <= k < |r.value.0| ==> r.value.0[k] < n))
      && (r.Failure? ==>
            r.error == MissingInput || r.error == WrongTokenType ||
            (r.error.IndexOutOfBounds? && !(0 <= r.error.index < n)))
    decreases count - |row|
  {
    if |row| < count {
      match NextInt(s)
      case Failure(_) =>
      case Success((index, rest)) =>
        if 0 <= index < n {
          ReadIndicesShape(rest, n, count, row + [index]);
        }
    }
  }

  /** A row that fails to read, while rows are still due, fails the rows. */
  lemma ReadChildrenFails(s: string, n: nat, rows: seq<seq<nat>>, e: ReadError)
    requires |rows| < n
    requires ReadRow(s, n) == Failure(e)
    ensures ReadChildren(s, n, rows) == Failure(e)
  {
  }

  /** Reading the rows yields one row per node, each position naming a node;
      it never reports a repeated name. */
  lemma {:induction false} ReadChildrenShape(s: string, n: nat, rows: seq<seq<nat>>)
    requires |rows| <= n
    requires forall i, k :: 0 <= i < |rows| && 0 <= k < |rows[i]| ==> rows[i][k] < n
    ensures var r := ReadChildren(s, n, rows);
      && (r.Success? ==>
            && |r.value| == n
            && rows <= r.value
            && (forall i, k :: 0 <= i < n && 0 <= k < |r.value[i]| ==> r.value[i][k] < n))
      && (r.Failure? ==> !r.error.DuplicateName?)
    decreases n - |rows|
  {
    if |rows| < n {
      match NextInt(s)
      case Failure(_) =>
      case Success((count, rest)) =>
        ReadIndicesShape(rest, n, count, []);
        match ReadRow(s, n)
        case Failure(_) =>
        case Success((row, rest')) =>
          ReadChildrenShape(rest', n, rows + [row]);
    }
  }

  /** Whatever `Parse` accepts is a well-formed listing. */
  lemma ParseWellFormed(text: string)
    ensures Parse(text).Success? ==> WellFormed(Parse(text).value)
  {
    match NextInt(text)
    case Failure(_) =>
    case Success((count, afterCount)) =>
      match SkipSpaces(afterCount)
      case None =>
      case Some(start) =>
        ReadNamesShape(start, count, []);
        match ReadNames(start, count, [])
        case Failure(_) =>
        case Success((names, afterNames)) =>
          ReadChildrenShape(afterNames, |names|, []);
  }

  // ---------------------------------------------------------------------
  // Round trip
  //
  // The string identities are proved apart from the reading functions, so
  // that each proof about reading only rewrites with them.

  lemma LinesSplit(ns: seq<string>, rest: string)
    requires ns != []
    ensures Lines(ns) + rest == ns[0] + "\n" + (Lines(ns[1..]) + rest)
  {
  }

  lemma IndexListSplit(rs: seq<nat>, tail: string)
    requires rs != []
    ensures " " + IndexList(rs) + tail == " " + NatToString(rs[0]) + (" " + IndexList(rs[1..]) + tail)
  {
  }

  lemma RowLineSplit(pre: string, row: seq<nat>, rest: string)
    ensures pre + RowLine(row) + rest == pre + NatToString(|row|) + (" " + IndexList(row) + ("\n" + rest))
    ensures " " + ("\n" + rest) == " \n" + rest
  {
    var count, positions := NatToString(|row|), IndexList(row);
    var after := "\n" + rest;
    ConcatAssoc(pre, RowLine(row), rest);
    ConcatAssoc(count + " " + positions, "\n", rest);
    ConcatAssoc(count + " ", positions, after);
    ConcatAssoc(count, " ", positions + after);
    ConcatAssoc(" ", positions, after);
    ConcatAssoc(pre, count, " " + positions + after);
  }

  lemma RowLinesSplit(pre: string, rs: seq<seq<nat>>)
    requires rs != []
    ensures pre + RowLines(rs) == pre + RowLine(rs[0]) + RowLines(rs[1..])
  {
  }

  /** The file as three parts: the count, its line break, then the rest. */
  lemma SerializeSplit(l: Listing)
    ensures Serialize(l) == NatToString(|l.names|) + "\n" + (Lines(l.names) + RowLines(l.children))
    ensures l.names != [] && l.names[0] != [] ==> (Lines(l.names) + RowLines(l.children))[0] == l.names[0][0]
  {
  }

  /** Names written one per line are read back after those read before. */
  lemma {:induction false} ReadNamesOfLines(ns: seq<string>, done: seq<string>, count: nat, rest: string)
    requires count == |done| + |ns| && Distinct(done + ns)
    requires forall j :: 0 <= j < |ns| ==> '\n' !in ns[j]
    ensures ReadNames(Lines(ns) + rest, count, done) == Success((done + ns, rest))
    decreases ns
  {
    if ns == [] {
      assert Lines(ns) + rest == rest;
      assert done + ns == done;
    } else {
      LinesSplit(ns, rest);
      NextLineOfLine(ns[0], Lines(ns[1..]) + rest);
      FirstNotDone(done, ns);
      ReadNamesStep(Lines(ns) + rest, count, done, ns[0], Lines(ns[1..]) + rest);
      assert [ns[0]] + ns[1..] == ns;
      ConcatAssoc(done, [ns[0]], ns[1..]);
      ReadNamesOfLines(ns[1..], done + [ns[0]], count, rest);
    }
  }

  /** With no name repeated, the next name is not among those read before. */
  lemma FirstNotDone(done: seq<string>, ns: seq<string>)
    requires ns != [] && Distinct(done + ns)
    ensures ns[0] !in done
  {
    var all := done + ns;
    assert all[|done|] == ns[0];
    forall j | 0 <= j < |done| ensures done[j] != ns[0] {
      assert all[j] == done[j];
    }
  }

  /** Positions written each after a space, while the count asks for at
      least that many more, are read back after those read before; reading
      goes on at the space before `tail`. */
  lemma {:induction false} ReadIndicesOfList(rs: seq<nat>, done: seq<nat>, count: nat, n: nat, tail: string)
    requires count >= |done| + |rs| && n <= JavaInt.MAX
    requires forall k :: 0 <= k < |rs| ==> rs[k] < n
    ensures ReadIndices(" " + IndexList(rs) + tail, n, count, done) == ReadIndices(" " + tail, n, count, done + rs)
    decreases rs
  {
    if rs == [] {
      assert " " + IndexList(rs) + tail == " " + tail;
      assert done + rs == done;
    } else {
      FirstIndexRead(rs, tail);
      ReadIndicesStep(" " + IndexList(rs) + tail, n, count, done, rs[0], " " + IndexList(rs[1..]) + tail);
      ReadIndicesOfList(rs[1..], done + [rs[0]], count, n, tail);
      assert [rs[0]] + rs[1..] == rs;
      ConcatAssoc(done, [rs[0]], rs[1..]);
    }
  }

  /** The first position of a list is read by `nextInt`. */
  lemma FirstIndexRead(rs: seq<nat>, tail: string)
    requires rs != [] && rs[0] <= JavaInt.MAX
    ensures NextInt(" " + IndexList(rs) + tail) == Success((rs[0], " " + IndexList(rs[1..]) + tail))
  {
    IndexListSplit(rs, tail);
    NextIntOfNatToString(" ", rs[0], " " + IndexList(rs[1..]) + tail);
  }

  /** A row the writer can write and the reader accepts for `n` nodes. */
  ghost predicate RowWithin(row: seq<nat>, n: nat) {
    |row| <= JavaInt.MAX && forall k :: 0 <= k < |row| ==> row[k] < n
  }

  /** A child line as the writer writes it, after delimiters, is read back
      as that row, up to the space and line break that end it. */
  lemma RowLineRead(pre: string, row: seq<nat>, n: nat, rest: string)
    requires forall j :: 0 <= j < |pre| ==> IsDelimiter(pre[j])
    requires n <= JavaInt.MAX && RowWithin(row, n)
    ensures ReadRow(pre + RowLine(row) + rest, n) == Success((row, " \n" + rest))
  {
    RowLineSplit(pre, row, rest);
    NextIntOfNatToString(pre, |row|, " " + IndexList(row) + ("\n" + rest));
    ReadIndicesOfList(row, [], |row|, n, "\n" + rest);
    assert [] + row == row;
    assert ReadIndices(" " + ("\n" + rest), n, |row|, row) == Success((row, " " + ("\n" + rest)));
  }

  /** Child lines as the writer writes them are read back after the rows
      read before. */
  lemma {:induction false} ReadChildrenOfRows(rs: seq<seq<nat>>, done: seq<seq<nat>>, n: nat, pre: string)
    requires |done| + |rs| == n <= JavaInt.MAX
    requires forall j :: 0 <= j < |pre| ==> IsDelimiter(pre[j])
    requires forall j :: 0 <= j < |rs| ==> RowWithin(rs[j], n)
    ensures ReadChildren(pre + RowLines(rs), n, done) == Success(done + rs)
    decreases rs
  {
    if rs == [] {
      assert done + rs == done;
    } else {
      RowLinesSplit(pre, rs);
      RowLineRead(pre, rs[0], n, RowLines(rs[1..]));
      ReadChildrenStep(pre + RowLines(rs), n, done, rs[0], " \n" + RowLines(rs[1..]));
      ReadChildrenOfRows(rs[1..], done + [rs[0]], n, " \n");
      assert [rs[0]] + rs[1..] == rs;
      ConcatAssoc(done, [rs[0]], rs[1..]);
    }
  }

  /** Once the count is read and the `\s` run after it skipped, the names
      and rows of a readable listing are read back as written. */
  lemma ReadAfterCount(text: string, afterCount: string, l: Listing)
    requires WellFormed(l) && Readable(l)
    requires NextInt(text) == Success((|l.names|, afterCount))
    requires SkipSpaces(afterCount) == Some(Lines(l.names) + RowLines(l.children))
    ensures Parse(text) == Success(l)
  {
    NamesReadBack(l, RowLines(l.children));
    RowsReadBack(l);
  }

  /** The names of a readable listing, written one per line, are read back
      in order, and reading stops right after them. */
  lemma NamesReadBack(l: Listing, rest: string)
    requires WellFormed(l) && Readable(l)
    ensures ReadNames(Lines(l.names) + rest, |l.names|, []) == Success((l.names, rest))
  {
    assert [] + l.names == l.names;
    assert forall j :: 0 <= j < |l.names| ==> '\n' !in l.names[j];
    ReadNamesOfLines(l.names, [], |l.names|, rest);
  }

  /** The child lines of a readable listing, as written, are read back as
      its rows. */
  lemma RowsReadBack(l: Listing)
    requires WellFormed(l) && Readable(l)
    ensures ReadChildren(RowLines(l.children), |l.names|, []) == Success(l.children)
  {
    var n := |l.names|;
    assert forall j :: 0 <= j < n ==> RowWithin(l.children[j], n);
    ReadChildrenOfRows(l.children, [], n, "");
    assert [] + l.children == l.children && "" + RowLines(l.children) == RowLines(l.children);
  }

  /** Reading what was written gives back the same names in the same order
      and the same child positions for every node. */
  lemma RoundTrip(l: Listing)
    requires WellFormed(l) && Saveable(l)
    ensures Parse(Serialize(l)) == Success(l)
  {
    var n := |l.names|;
    var body := Lines(l.names) + RowLines(l.children);
    SerializeSplit(l);
    CountLineRead(n, body);
    if n == 0 {
      assert l.children == [] && body == "";
    }
    SkipSpaceRun("\n", body);
    ReadAfterCount(Serialize(l), "\n" + body, l);
  }

  lemma CountLineRead(n: nat, body: string)
    requires n <= JavaInt.MAX
    ensures NextInt(NatToString(n) + "\n" + body) == Success((n, "\n" + body))
  {
    assert NatToString(n) + "\n" + body == "" + NatToString(n) + ("\n" + body);
    NextIntOfNatToString("", n, "\n" + body);
  }

  // ---------------------------------------------------------------------
  // Failures

  /** An empty first name is lost as well: the skip after the count takes
      its blank line, so the names are read one line late. With a second,
      childless node named `b`, `b` and the first child line are taken for
      the two names, and the file runs out before the second child line. */
  lemma BlankFirstNameFails(b: string)
    requires b != [] && !IsSpace(b[0]) && NoLineTerminator(b) && b != "0 "
    ensures Parse(Serialize(Listing(["", b], [[], []]))) == Failure(MissingInput)
  {
    var names := Lines([b, "0 "]) + "0 \n";
    var afterCount := "\n\n" + names;
    BlankFirstNameText(b);
    CountLineRead(2, "\n" + names);
    assert "\n" + ("\n" + names) == afterCount;
    assert names[0] == b[0];
    SkipSpaceRun("\n\n", names);
    assert Distinct([b, "0 "]) && [] + [b, "0 "] == [b, "0 "];
    ReadNamesOfLines([b, "0 "], [], 2, "0 \n");
    BlankFirstNameRows();
    ParseFailsInRows(Serialize(Listing(["", b], [[], []])), 2, afterCount, names, [b, "0 "], "0 \n", MissingInput);
  }

  /** The file as written: the count line, the blank first name, then the
      text that the reader takes for two names and one child line. */
  lemma BlankFirstNameText(b: string)
    ensures Serialize(Listing(["", b], [[], []])) == NatToString(2) + "\n" + ("\n" + (Lines([b, "0 "]) + "0 \n"))
  {
    assert NatToString(0) == "0";
    assert RowLines([[], []]) == "0 \n" + "0 \n" by {
      assert IndexList([]) == "" && RowLine([]) == "0 \n";
      assert RowLines([[]]) == "0 \n";
    }
    assert Lines(["", b]) == "\n" + (b + "\n") by {
      assert ["", b][1..] == [b];
      assert Lines([b]) == b + "\n";
    }
    assert Lines([b, "0 "]) == b + "\n" + "0 \n" by {
      assert [b, "0 "][1..] == ["0 "];
      assert Lines(["0 "]) == "0 \n";
    }
  }

  /** One child line is left for two nodes. */
  lemma BlankFirstNameRows()
    ensures ReadChildren("0 \n", 2, []) == Failure(MissingInput)
  {
    NextIntOfNatToString("", 0, " \n");
    assert "" + NatToString(0) + " \n" == "0 \n";
    ReadChildrenStep("0 \n", 2, [], [], " \n");
    NextTokenSplits(" \n");
    ReadChildrenFails(" \n", 2, [[]], MissingInput);
  }

  /** The names read, a failure in the child lines after them is the
      outcome of reading the file. */
  lemma ParseFailsInRows(text: string, count: int, afterCount: string, start: string, names: seq<string>, afterNames: string, e: ReadError)
    requires NextInt(text) == Success((count, afterCount))
    requires SkipSpaces(afterCount) == Some(start)
    requires ReadNames(start, count, []) == Success((names, afterNames))
    requires ReadChildren(afterNames, |names|, []) == Failure(e)
    ensures Parse(text) == Failure(e)
  {
  }

  /** The restriction on the first name is needed: the `\s` skip after the
      count also takes the leading `\s` characters of the first name, so
      the graph read back has that name without them. */
  lemma FirstNameLosesLeadingSpaces(l: Listing, ws: string, name: string)
    requires WellFormed(l) && Readable(l)
    requires l.names != [] && l.names[0] == ws + name
    requires ws != [] && forall i :: 0 <= i < |ws| ==> IsSpace(ws[i])
    requires name != [] && !IsSpace(name[0]) && name !in l.names[1..]
    ensures Parse(Serialize(l)) == Success(Listing([name] + l.names[1..], l.children))
  {
    var read := Listing([name] + l.names[1..], l.children);
    var body := Lines(read.names) + RowLines(l.children);
    LeadingSpacesSplit(l, ws, name);
    CountLineRead(|l.names|, ws + body);
    NewlineThenRun(ws, body);
    ReplacedFirstReadable(l, ws, name);
    ReadAfterCount(Serialize(l), "\n" + (ws + body), read);
  }

  lemma NewlineThenRun(ws: string, body: string)
    requires ws != [] && forall i :: 0 <= i < |ws| ==> IsSpace(ws[i])
    requires body != [] && !IsSpace(body[0])
    ensures SkipSpaces("\n" + (ws + body)) == Some(body)
  {
    var run := "\n" + ws;
    assert forall i :: 0 <= i < |run| ==> IsSpace(run[i]) by {
      forall i | 0 <= i < |run| ensures IsSpace(run[i]) {
        if i > 0 { assert run[i] == ws[i - 1]; }
      }
    }
    assert run + body == "\n" + (ws + body);
    SkipSpaceRun(run, body);
  }

  /** Dropping leading `\s` characters from the first name keeps the
      listing well formed and readable when no other name is the result. */
  lemma ReplacedFirstReadable(l: Listing, ws: string, name: string)
    requires WellFormed(l) && Readable(l)
    requires l.names != [] && l.names[0] == ws + name && name !in l.names[1..]
    ensures WellFormed(Listing([name] + l.names[1..], l.children))
    ensures Readable(Listing([name] + l.names[1..], l.children))
  {
    var names := [name] + l.names[1..];
    assert NoLineTerminator(name) by {
      assert forall i :: 0 <= i < |name| ==> (ws + name)[|ws| + i] == name[i];
    }
    assert forall i :: 1 <= i < |names| ==> names[i] == l.names[i];
    forall i, j | 0 <= i < j < |names| ensures names[i] != names[j] {
      if i == 0 {
        assert names[j] == l.names[1..][j - 1];
      }
    }
  }

  lemma LeadingSpacesSplit(l: Listing, ws: string, name: string)
    requires l.names != [] && l.names[0] == ws + name
    ensures Serialize(l) == NatToString(|l.names|) + "\n" + (ws + (Lines([name] + l.names[1..]) + RowLines(l.children)))
    ensures name != [] ==> (Lines([name] + l.names[1..]) + RowLines(l.children))[0] == name[0]
  {
    var names := [name] + l.names[1..];
    assert names[1..] == l.names[1..];
    assert Lines(l.names) == ws + name + "\n" + Lines(l.names[1..]);
    assert Lines(names) == name + "\n" + Lines(l.names[1..]);
  }

  /** A token that is not an `int`, after delimiters, is a wrong token
      type for `nextInt`. */
  lemma NotAnIntRead(ws: string, token: string, rest: string)
    requires forall i :: 0 <= i < |ws| ==> IsDelimiter(ws[i])
    requires token != [] && forall i :: 0 <= i < |token| ==> !IsDelimiter(token[i])
    requires ParseInt(token).None?
    requires rest == [] || IsDelimiter(rest[0])
    ensures NextInt(ws + (token + rest)) == Failure(InputMismatch)
  {
    NextTokenOfToken(ws, token, rest);
    assert ws + token + rest == ws + (token + rest);
  }

  /** A file whose first token is not an `int` is rejected with a wrong
      token type. */
  lemma CountNotAnInt(ws: string, token: string, rest: string)
    requires forall i :: 0 <= i < |ws| ==> IsDelimiter(ws[i])
    requires token != [] && forall i :: 0 <= i < |token| ==> !IsDelimiter(token[i])
    requires ParseInt(token).None?
    requires rest == [] || IsDelimiter(rest[0])
    ensures Parse(ws + (token + rest)) == Failure(WrongTokenType)
  {
    NotAnIntRead(ws, token, rest);
  }

  /** Child lines as written, followed by a child line that fails to read,
      make reading the rows fail with the same error, provided the count
      still asks for that line. */
  lemma {:induction false} RowsThenFailingRow(pre: string, rs: seq<seq<nat>>, done: seq<seq<nat>>, n: nat, tail: string, e: ReadError)
    requires |done| + |rs| < n <= JavaInt.MAX
    requires forall j :: 0 <= j < |pre| ==> IsDelimiter(pre[j])
    requires forall j :: 0 <= j < |rs| ==> RowWithin(rs[j], n)
    requires ReadRow(pre + tail, n) == Failure(e) && ReadRow(" \n" + tail, n) == Failure(e)
    ensures ReadChildren(pre + (RowLines(rs) + tail), n, done) == Failure(e)
    decreases rs
  {
    if rs == [] {
      assert RowLines(rs) + tail == tail;
      ReadChildrenFails(pre + tail, n, done, e);
    } else {
      RowsStep(pre, rs, done, n, tail);
      RowsThenFailingRow(" \n", rs[1..], done + [rs[0]], n, tail, e);
    }
  }

  /** The first of the child lines as written, before `tail`, is read as
      its row, and reading goes on after it. */
  lemma RowsStep(pre: string, rs: seq<seq<nat>>, done: seq<seq<nat>>, n: nat, tail: string)
    requires rs != [] && |done| < n <= JavaInt.MAX
    requires forall j :: 0 <= j < |pre| ==> IsDelimiter(pre[j])
    requires RowWithin(rs[0], n)
    ensures ReadChildren(pre + (RowLines(rs) + tail), n, done) ==
            ReadChildren(" \n" + (RowLines(rs[1..]) + tail), n, done + [rs[0]])
  {
    var more := RowLines(rs[1..]) + tail;
    ConcatAssoc(RowLine(rs[0]), RowLines(rs[1..]), tail);
    ConcatAssoc(pre, RowLine(rs[0]), more);
    RowLineRead(pre, rs[0], n, more);
    ReadChildrenStep(pre + (RowLines(rs) + tail), n, done, rs[0], " \n" + more);
  }

  /** A child count that is not an `int` fails the child line. */
  lemma CountTokenFails(pre: string, n: nat, ws: string, token: string, rest: string)
    requires forall i :: 0 <= i < |pre| ==> IsDelimiter(pre[i])
    requires forall i :: 0 <= i < |ws| ==> IsDelimiter(ws[i])
    requires token != [] && forall i :: 0 <= i < |token| ==> !IsDelimiter(token[i])
    requires ParseInt(token).None?
    requires rest == [] || IsDelimiter(rest[0])
    ensures ReadRow(pre + (ws + token + rest), n) == Failure(WrongTokenType)
  {
    var run := pre + ws;
    assert forall i :: 0 <= i < |run| ==> IsDelimiter(run[i]) by {
      forall i | 0 <= i < |run| ensures IsDelimiter(run[i]) {
        if i >= |pre| { assert run[i] == ws[i - |pre|]; }
      }
    }
    assert pre + (ws + token + rest) == run + (token + rest);
    NotAnIntRead(run, token, rest);
  }

  /** A child line whose count asks for more positions than are written
      before a token that is not an `int` fails at that token. */
  lemma PositionTokenFails(pre: string, n: nat, count: nat, ps: seq<nat>, ws: string, token: string, rest: string)
    requires forall i :: 0 <= i < |pre| ==> IsDelimiter(pre[i])
    requires |ps| < count <= JavaInt.MAX && n <= JavaInt.MAX
    requires forall k :: 0 <= k < |ps| ==> ps[k] < n
    requires forall i :: 0 <= i < |ws| ==> IsDelimiter(ws[i])
    requires token != [] && forall i :: 0 <= i < |token| ==> !IsDelimiter(token[i])
    requires ParseInt(token).None?
    requires rest == [] || IsDelimiter(rest[0])
    ensures ReadRow(pre + PartialRow(count, ps, ws + token + rest), n) == Failure(WrongTokenType)
  {
    var bad := ws + token + rest;
    var afterCount := " " + IndexList(ps) + bad;
    PartialRowSplit(pre, count, ps, bad);
    NextIntOfNatToString(pre, count, afterCount);
    assert ReadRow(pre + PartialRow(count, ps, bad), n) == ReadIndices(afterCount, n, count, []);
    ReadIndicesOfList(ps, [], count, n, bad);
    assert [] + ps == ps;
    NotAnIntAfterPositions(n, count, ps, ws, token, rest);
  }

  /** When the count still asks for a position, a token that is not an
      `int` after the space that ends the last position fails the row. */
  lemma NotAnIntAfterPositions(n: nat, count: nat, ps: seq<nat>, ws: string, token: string, rest: string)
    requires |ps| < count
    requires forall i :: 0 <= i < |ws| ==> IsDelimiter(ws[i])
    requires token != [] && forall i :: 0 <= i < |token| ==> !IsDelimiter(token[i])
    requires ParseInt(token).None?
    requires rest == [] || IsDelimiter(rest[0])
    ensures ReadIndices(" " + (ws + token + rest), n, count, ps) == Failure(WrongTokenType)
  {
    var run := " " + ws;
    assert forall i :: 0 <= i < |run| ==> IsDelimiter(run[i]) by {
      forall i | 0 <= i < |run| ensures IsDelimiter(run[i]) {
        if i > 0 { assert run[i] == ws[i - 1]; }
      }
    }
    ConcatAssoc(" ", ws + token, rest);
    assert " " + (ws + token + rest) == run + (token + rest) by {
      ConcatAssoc(ws, token, rest);
      ConcatAssoc(" ", ws, token + rest);
    }
    NotAnIntRead(run, token, rest);
  }

  /** The start of a child line: the count, then the positions `ps`, then
      `tail`. */
  function PartialRow(count: nat, ps: seq<nat>, tail: string): string
  {
    NatToString(count) + " " + IndexList(ps) + tail
  }

  lemma PartialRowSplit(pre: string, count: nat, ps: seq<nat>, tail: string)
    ensures pre + PartialRow(count, ps, tail) == pre + NatToString(count) + (" " + IndexList(ps) + tail)
  {
  }

  /** A file written for a graph with only the first `k` child lines, then
      a child line that fails to read, is rejected with that line's error. */
  lemma ParseFailsAtRow(l: Listing, k: nat, tail: string, e: ReadError)
    requires WellFormed(l) && Saveable(l) && k < |l.names|
    requires ReadRow(tail, |l.names|) == Failure(e) && ReadRow(" \n" + tail, |l.names|) == Failure(e)
    ensures Parse(Serialize(Listing(l.names, l.children[..k])) + tail) == Failure(e)
  {
    var rows := l.children[..k];
    FileThenTail(l.names, rows, tail);
    NamesThenRows(l, RowLines(rows) + tail);
    assert forall j :: 0 <= j < k ==> RowWithin(rows[j], |l.names|);
    assert "" + tail == tail && "" + (RowLines(rows) + tail) == RowLines(rows) + tail;
    RowsThenFailingRow("", rows, [], |l.names|, tail, e);
  }

  /** The count and the names of a saveable listing, as written, are read
      back, and reading goes on with the child lines after them. */
  lemma NamesThenRows(l: Listing, after: string)
    requires WellFormed(l) && Saveable(l) && l.names != []
    requires (Lines(l.names) + after)[0] == l.names[0][0]
    ensures var c := ReadChildren(after, |l.names|, []);
      Parse(NatToString(|l.names|) + "\n" + (Lines(l.names) + after)) ==
        if c.Failure? then Failure(c.error) else Success(Listing(l.names, c.value))
  {
    var body := Lines(l.names) + after;
    CountLineRead(|l.names|, body);
    SkipSpaceRun("\n", body);
    NamesReadBack(l, after);
  }

  lemma FileThenTail(names: seq<string>, rows: seq<seq<nat>>, tail: string)
    requires names != [] && names[0] != []
    ensures Serialize(Listing(names, rows)) + tail == NatToString(|names|) + "\n" + (Lines(names) + (RowLines(rows) + tail))
    ensures (Lines(names) + (RowLines(rows) + tail))[0] == names[0][0]
  {
    var head := NatToString(|names|) + "\n";
    ConcatAssoc(head + Lines(names), RowLines(rows), tail);
    ConcatAssoc(head, Lines(names), RowLines(rows) + tail);
    LinesSplit(names, RowLines(rows) + tail);
  }

  /** A child count that is not an `int`, where the file as written has
      its `k`-th child line, is rejected with a wrong token type. */
  lemma ChildCountNotAnInt(l: Listing, k: nat, ws: string, token: string, rest: string)
    requires WellFormed(l) && Saveable(l) && k < |l.names|
    requires forall i :: 0 <= i < |ws| ==> IsDelimiter(ws[i])
    requires token != [] && forall i :: 0 <= i < |token| ==> !IsDelimiter(token[i])
    requires ParseInt(token).None?
    requires rest == [] || IsDelimiter(rest[0])
    ensures Parse(Serialize(Listing(l.names, l.children[..k])) + (ws + token + rest)) == Failure(WrongTokenType)
  {
    CountTokenFails("", |l.names|, ws, token, rest);
    CountTokenFails(" \n", |l.names|, ws, token, rest);
    assert "" + (ws + token + rest) == ws + token + rest;
    ParseFailsAtRow(l, k, ws + token + rest, WrongTokenType);
  }

  /** A child position that is not an `int`, where the count of the `k`-th
      child line still asks for one, is rejected with a wrong token type. */
  lemma ChildPositionNotAnInt(l: Listing, k: nat, count: nat, ps: seq<nat>, ws: string, token: string, rest: string)
    requires WellFormed(l) && Saveable(l) && k < |l.names|
    requires |ps| < count <= JavaInt.MAX
    requires forall j :: 0 <= j < |ps| ==> ps[j] < |l.names|
    requires forall i :: 0 <= i < |ws| ==> IsDelimiter(ws[i])
    requires token != [] && forall i :: 0 <= i < |token| ==> !IsDelimiter(token[i])
    requires ParseInt(token).None?
    requires rest == [] || IsDelimiter(rest[0])
    ensures Parse(Serialize(Listing(l.names, l.children[..k])) + PartialRow(count, ps, ws + token + rest)) == Failure(WrongTokenType)
  {
    var line := PartialRow(count, ps, ws + token + rest);
    PositionTokenFails("", |l.names|, count, ps, ws, token, rest);
    PositionTokenFails(" \n", |l.names|, count, ps, ws, token, rest);
    assert "" + line == line;
    ParseFailsAtRow(l, k, line, WrongTokenType);
  }

  /** Names read before that repeat none, followed by names that repeat one,
      make reading fail on a repeated name. */
  lemma {:induction false} ReadNamesFindsRepeat(ns: seq<string>, done: seq<string>, count: nat, rest: string)
    requires count == |done| + |ns| && Distinct(done) && !Distinct(done + ns)
    requires forall j :: 0 <= j < |ns| ==> NoLineTerminator(ns[j])
    ensures var r := ReadNames(Lines(ns) + rest, count, done);
              r.Failure? && r.error.DuplicateName? && r.error.name in done + ns
    decreases ns
  {
    if ns != [] {
      LinesSplit(ns, rest);
      NextLineOfLine(ns[0], Lines(ns[1..]) + rest);
      assert [ns[0]] + ns[1..] == ns;
      ConcatAssoc(done, [ns[0]], ns[1..]);
      if ns[0] in done {
        assert (done + ns)[|done|] == ns[0];
      } else {
        DistinctAppend(done, ns[0]);
        ReadNamesStep(Lines(ns) + rest, count, done, ns[0], Lines(ns[1..]) + rest);
        ReadNamesFindsRepeat(ns[1..], done + [ns[0]], count, rest);
      }
    }
  }

  lemma DistinctAppend(s: seq<string>, x: string)
    requires Distinct(s) && x !in s
    ensures Distinct(s + [x])
  {
    var t := s + [x];
    forall i, j | 0 <= i < j < |t| ensures t[i] != t[j] {
      assert t[i] == s[i];
    }
  }

  /** When the names after the count repeat one, reading fails with a
      duplicate name, whatever follows them. */
  lemma RepeatedNameRejected(names: seq<string>, rest: string)
    requires |names| <= JavaInt.MAX
    requires !Distinct(names)
    requires forall j :: 0 <= j < |names| ==> NoLineTerminator(names[j])
    requires names[0] != [] && !IsSpace(names[0][0])
    ensures var r := Parse(NatToString(|names|) + "\n" + Lines(names) + rest);
              r.Failure? && r.error.DuplicateName? && r.error.name in names
  {
    assert [] + names == names;
    ReadNamesFindsRepeat(names, [], |names|, rest);
    var r := ReadNames(Lines(names) + rest, |names|, []);
    NamesFail(names, rest, r.error);
  }

  /** A failure while reading the names, after the count as written, is
      the outcome of reading the file. */
  lemma NamesFail(names: seq<string>, rest: string, e: ReadError)
    requires |names| <= JavaInt.MAX
    requires names != [] && names[0] != [] && !IsSpace(names[0][0])
    requires ReadNames(Lines(names) + rest, |names|, []) == Failure(e)
    ensures Parse(NatToString(|names|) + "\n" + Lines(names) + rest) == Failure(e)
  {
    var body := Lines(names) + rest;
    NamesFileSplit(names, rest);
    CountLineRead(|names|, body);
    SkipSpaceRun("\n", body);
  }

  lemma NamesFileSplit(names: seq<string>, rest: string)
    requires names != [] && names[0] != []
    ensures NatToString(|names|) + "\n" + Lines(names) + rest == NatToString(|names|) + "\n" + (Lines(names) + rest)
    ensures (Lines(names) + rest)[0] == names[0][0]
  {
    LinesSplit(names, rest);
  }
}
