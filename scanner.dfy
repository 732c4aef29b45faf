/** The behaviour of `String.valueOf(int)` and of the `java.util.Scanner`
    calls the graph file format relies on (`nextInt`, `nextLine`,
    `skip("\\s+")`), as pure functions on the input that remains to be read.
    Each scanner function returns what it read together with the rest of the
    input, so a sequence of scanner calls is a chain of these functions. */
module Scanning {
  import opened Results
  import JavaInt

  /** The regular-expression class `\s`, which `skip("\\s+")` consumes. */
  predicate IsSpace(c: char) {
    c == ' ' || c == '\t' || c == '\n' || c == '\U{B}' || c == '\U{C}' || c == '\r'
  }

  /** The scanner's token delimiters (`Character.isWhitespace`, ASCII part). */
  predicate IsDelimiter(c: char) {
    IsSpace(c) || ('\U{1C}' <= c <= '\U{1F}')
  }

  /** The characters at which `nextLine` ends a line: its separator pattern
      is `\r\n` or one of `\n`, `\r`, U+2028, U+2029 and U+0085. */
  predicate IsLineTerminator(c: char) {
    c == '\n' || c == '\r' || c == '\U{2028}' || c == '\U{2029}' || c == '\U{85}'
  }

  /** A string in which `nextLine` finds no end of line. */
  predicate NoLineTerminator(s: string)
    ensures NoLineTerminator(s) ==> '\n' !in s
  {
    forall i :: 0 <= i < |s| ==> !IsLineTerminator(s[i])
  }

  predicate IsDigit(c: char) {
    '0' <= c <= '9'
  }

  predicate AllDigits(s: string) {
    forall i :: 0 <= i < |s| ==> IsDigit(s[i])
  }

  /** The two exceptions the scanner throws. */
  datatype ScanError =
    | NoSuchElement   // the input is exhausted
    | InputMismatch   // the next token is not an `int`

  // ---------------------------------------------------------------------
  // Decimal numerals

  function DigitChar(d: nat): (c: char)
    requires d < 10
    ensures IsDigit(c)
  {
    ('0' as int + d) as char
  }

  /** `String.valueOf(n)` for a non-negative `n`. */
  function NatToString(n: nat): (s: string)
    ensures s != []
    ensures AllDigits(s)
  {
    if n < 10 then [DigitChar(n)] else NatToString(n / 10) + [DigitChar(n % 10)]
  }

  /** The value of a string of decimal digits. */
  function DigitsValue(s: string): nat
    requires AllDigits(s)
  {
    if s == [] then 0
    else
      assert IsDigit(s[|s| - 1]);
      10 * DigitsValue(s[..|s| - 1]) + (s[|s| - 1] as int - '0' as int)
  }

  lemma {:induction false} DigitsValueOfNatToString(n: nat)
    ensures DigitsValue(NatToString(n)) == n
  {
    if n >= 10 {
      var s := NatToString(n);
      assert s[..|s| - 1] == NatToString(n / 10);
      DigitsValueOfNatToString(n / 10);
    }
  }

  /** The integer an `nextInt` token denotes: an optional sign and at least
      one decimal digit, within the range of `int`. */
  function ParseInt(token: string): (r: Option<int>)
    ensures r.Some? ==> token != [] && JavaInt.InRange(r.value)
  {
    var signed := token != [] && (token[0] == '-' || token[0] == '+');
    var digits := if signed then token[1..] else token;
    if digits == [] || !AllDigits(digits) then None
    else
      var magnitude: int := DigitsValue(digits);
      var v: int := if signed && token[0] == '-' then -magnitude else magnitude;
      if JavaInt.InRange(v) then Some(v) else None
  }

  lemma ParseIntOfNatToString(n: nat)
    requires n <= JavaInt.MAX
    ensures ParseInt(NatToString(n)) == Some(n)
  {
    var token := NatToString(n);
    DigitsValueOfNatToString(n);
    assert IsDigit(token[0]);
  }

  // ---------------------------------------------------------------------
  // Scanning

  /** The input left after dropping its leading characters that satisfy `p`. */
  function DropWhile(s: string, p: char -> bool): (r: string)
    ensures |r| <= |s|
  {
    if s != [] && p(s[0]) then DropWhile(s[1..], p) else s
  }

  /** `DropWhile` drops exactly the longest prefix whose characters satisfy
      `p`, and keeps the rest as it was. */
  lemma {:induction false} DropWhileSplits(s: string, p: char -> bool)
    ensures var r := DropWhile(s, p);
      && r == s[|s| - |r|..]
      && (r == [] || !p(r[0]))
      && (forall i :: 0 <= i < |s| - |r| ==> p(s[i]))
  {
    if s != [] && p(s[0]) {
      DropWhileSplits(s[1..], p);
      var r := DropWhile(s, p);
      forall i | 0 <= i < |s| - |r| ensures p(s[i]) {
        if i > 0 {
          assert s[i] == s[1..][i - 1];
        }
      }
    }
  }

  /** The length of the longest prefix of `s` without a delimiter. */
  function TokenLength(s: string): (k: nat)
    ensures k <= |s|
  {
    if s == [] || IsDelimiter(s[0]) then 0 else 1 + TokenLength(s[1..])
  }

  /** `TokenLength` stops at the first delimiter, or at the end of input. */
  lemma {:induction false} TokenLengthStops(s: string)
    ensures var k := TokenLength(s);
      && (forall i :: 0 <= i < k ==> !IsDelimiter(s[i]))
      && (k == |s| || IsDelimiter(s[k]))
  {
    if s != [] && !IsDelimiter(s[0]) {
      TokenLengthStops(s[1..]);
      var k := TokenLength(s);
      forall i | 0 <= i < k ensures !IsDelimiter(s[i]) {
        if i > 0 {
          assert s[i] == s[1..][i - 1];
        }
      }
    }
  }

  /** The next token: delimiters are skipped, then the longest run of
      non-delimiters is taken; `None` when only delimiters remain. */
  function NextToken(s: string): (r: Option<(string, string)>)
  {
    var t := DropWhile(s, IsDelimiter);
    if t == [] then None
    else
      var k := TokenLength(t);
      Some((t[..k], t[k..]))
  }

  /** A token is a nonempty run of non-delimiters, followed by a delimiter or
      the end of input; there is none when only delimiters remain. */
  lemma NextTokenSplits(s: string)
    ensures var r := NextToken(s);
      && (r.None? <==> forall i :: 0 <= i < |s| ==> IsDelimiter(s[i]))
      && (r.Some? ==> var (token, rest) := r.value;
            && token != []
            && (forall i :: 0 <= i < |token| ==> !IsDelimiter(token[i]))
            && (rest == [] || IsDelimiter(rest[0]))
            && |rest| < |s|)
  {
    var t := DropWhile(s, IsDelimiter);
    DropWhileSplits(s, IsDelimiter);
    if t != [] {
      TokenLengthStops(t);
    } else {
      assert forall i :: 0 <= i < |s| ==> IsDelimiter(s[i]);
    }
  }

  /** `Scanner.nextInt()`. */
  function NextInt(s: string): (r: Result<(int, string), ScanError>)
    ensures r.Success? ==> JavaInt.InRange(r.value.0)
  {
    match NextToken(s)
    case None => Failure(NoSuchElement)
    case Some((token, rest)) =>
      match ParseInt(token)
      case None => Failure(InputMismatch)
      case Some(v) => Success((v, rest))
  }

  /** The length of the longest prefix of `s` without a line break. */
  function LineLength(s: string): (k: nat)
    ensures k <= |s|
    ensures '\n' !in s[..k]
    ensures k == |s| || s[k] == '\n'
  {
    if s == [] || s[0] == '\n' then 0
    else
      var k := 1 + LineLength(s[1..]);
      assert s[..k] == [s[0]] + s[1..][..k - 1];
      k
  }

  /** `Scanner.nextLine()`: the rest of the current line without its line
      break, and the input after the line break; `None` at the end of input. */
  function NextLine(s: string): (r: Option<(string, string)>)
    ensures r.None? <==> s == []
    ensures r.Some? ==> var (line, rest) := r.value;
              '\n' !in line && ((line == s && rest == []) || s == line + "\n" + rest)
  {
    if s == [] then None
    else
      var k := LineLength(s);
      if k == |s| then Some((s, []))
      else
        assert s == s[..k] + "\n" + s[k + 1..];
        Some((s[..k], s[k + 1..]))
  }

  /** `Scanner.skip("\\s+")`: at least one `\s` character must come next, and
      every `\s` character up to the next other character is consumed. */
  function SkipSpaces(s: string): (r: Option<string>)
    ensures r.None? <==> s == [] || !IsSpace(s[0])
    ensures r.Some? ==> |r.value| < |s|
  {
    if s == [] || !IsSpace(s[0]) then None else Some(DropWhile(s, IsSpace))
  }

  // ---------------------------------------------------------------------
  // Reading back what the writer wrote

  /** A run of characters that satisfy `p` is dropped as a whole. */
  lemma {:induction false} DropRun(ws: string, s: string, p: char -> bool)
    requires forall i :: 0 <= i < |ws| ==> p(ws[i])
    ensures DropWhile(ws + s, p) == DropWhile(s, p)
  {
    if ws != [] {
      assert (ws + s)[0] == ws[0];
      assert (ws + s)[1..] == ws[1..] + s;
      DropRun(ws[1..], s, p);
    } else {
      assert ws + s == s;
    }
  }

  lemma {:induction false} TokenLengthOfToken(token: string, rest: string)
    requires forall i :: 0 <= i < |token| ==> !IsDelimiter(token[i])
    requires rest == [] || IsDelimiter(rest[0])
    ensures TokenLength(token + rest) == |token|
  {
    if token == [] {
      assert token + rest == rest;
    } else {
      assert (token + rest)[0] == token[0];
      assert (token + rest)[1..] == token[1..] + rest;
      TokenLengthOfToken(token[1..], rest);
    }
  }

  /** A token preceded by delimiters and followed by a delimiter or the end
      of input is what `next` reads. */
  lemma NextTokenOfToken(ws: string, token: string, rest: string)
    requires forall i :: 0 <= i < |ws| ==> IsDelimiter(ws[i])
    requires token != [] && forall i :: 0 <= i < |token| ==> !IsDelimiter(token[i])
    requires rest == [] || IsDelimiter(rest[0])
    ensures NextToken(ws + token + rest) == Some((token, rest))
  {
    var t := token + rest;
    assert ws + token + rest == ws + t;
    DropRun(ws, t, IsDelimiter);
    assert t[0] == token[0];
    assert DropWhile(t, IsDelimiter) == t;
    TokenLengthOfToken(token, rest);
    assert t[..|token|] == token && t[|token|..] == rest;
  }

  /** A number written by `String.valueOf`, preceded by delimiters and
      followed by a delimiter or the end of input, is read back by `nextInt`. */
  lemma NextIntOfNatToString(ws: string, n: nat, rest: string)
    requires forall i :: 0 <= i < |ws| ==> IsDelimiter(ws[i])
    requires n <= JavaInt.MAX
    requires rest == [] || IsDelimiter(rest[0])
    ensures NextInt(ws + NatToString(n) + rest) == Success((n, rest))
  {
    var token := NatToString(n);
    forall i | 0 <= i < |token| ensures !IsDelimiter(token[i]) {
      assert IsDigit(token[i]);
    }
    NextTokenOfToken(ws, token, rest);
    ParseIntOfNatToString(n);
  }

  /** A line written without line breaks, followed by one, is read back by `nextLine`. */
  lemma NextLineOfLine(line: string, rest: string)
    requires '\n' !in line
    ensures NextLine(line + "\n" + rest) == Some((line, rest))
  {
    var s := line + "\n" + rest;
    assert forall i :: 0 <= i < |line| ==> s[i] == line[i];
    assert s[|line|] == '\n';
    assert s[..|line|] == line && s[|line| + 1..] == rest;
  }

  /** `skip("\\s+")` consumes a nonempty run of `\s` characters and stops
      at the first other character. */
  lemma SkipSpaceRun(ws: string, rest: string)
    requires ws != [] && forall i :: 0 <= i < |ws| ==> IsSpace(ws[i])
    requires rest == [] || !IsSpace(rest[0])
    ensures SkipSpaces(ws + rest) == Some(rest)
  {
    assert (ws + rest)[0] == ws[0];
    DropRun(ws, rest, IsSpace);
  }
}
