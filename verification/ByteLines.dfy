/** Bytes read as lines, told apart by the byte 0x0A alone. */
module ByteLines {
  import opened ByteStrings
  import Seqs

  /** How many bytes come before the first 0x0A. */
  function LineLength(s: Bytes): (n: nat)
    ensures n <= |s|
  {
    if s == [] || s[0] == 0x0A then 0 else 1 + LineLength(s[1..])
  }

  /** The lines of a text, without the 0x0A that ends each. */
  function LinesIn(s: Bytes): seq<Bytes> {
    if s == [] then []
    else
      var n := LineLength(s);
      [s[..n]] + if n == |s| then [] else LinesIn(s[n + 1..])
  }

  predicate OneLine(line: Bytes) {
    0x0A !in line
  }

  lemma {:induction false} LineLengthOf(line: Bytes, rest: Bytes)
    requires OneLine(line)
    ensures LineLength(line + ([0x0A] + rest)) == |line|
  {
    if line == [] {
      Seqs.EmptyUnit([0x0A] + rest);
    } else {
      Seqs.FirstOfConcat(line, [0x0A] + rest);
      LineLengthOf(line[1..], rest);
    }
  }

  /** Text that ends a line is read before whatever follows it. */
  lemma LinesInFirst(line: Bytes, rest: Bytes)
    requires OneLine(line)
    ensures LinesIn(line + ([0x0A] + rest)) == [line] + LinesIn(rest)
  {
    LineLengthOf(line, rest);
    Seqs.SplitsBack(line, [0x0A] + rest);
    Seqs.CutAfter(line, [0x0A] + rest, 1);
    Seqs.FirstOfConcat([0x0A], rest);
    Seqs.EmptyUnit(rest);
  }

  lemma {:induction false} LineLengthIsOneLine(s: Bytes)
    ensures OneLine(s[..LineLength(s)]) && (LineLength(s) < |s| ==> s[LineLength(s)] == 0x0A)
  {
    if s != [] && s[0] != 0x0A {
      LineLengthIsOneLine(s[1..]);
      assert s[..LineLength(s)] == [s[0]] + s[1..][..LineLength(s[1..])];
    }
  }

  predicate EndsLine(s: Bytes) {
    s == [] || s[|s| - 1] == 0x0A
  }

  lemma FirstLine(s: Bytes) returns (line: Bytes, rest: Bytes)
    requires s != [] && EndsLine(s)
    ensures OneLine(line) && s == line + ([0x0A] + rest) && EndsLine(rest)
  {
    var n := LineLength(s);
    LineLengthIsOneLine(s);
    if n == |s| {
      Seqs.TakeAll(s);
    }
    line, rest := s[..n], s[n + 1..];
    Seqs.CutAt(s, n);
  }

  lemma LinesInFirstOfBoth(a: Bytes, line: Bytes, rest: Bytes, b: Bytes)
    requires OneLine(line) && a == line + ([0x0A] + rest)
    ensures LinesIn(a) == [line] + LinesIn(rest) && LinesIn(a + b) == [line] + LinesIn(rest + b)
  {
    Seqs.Reassociate(line, [0x0A] + rest, b);
    Seqs.Reassociate([0x0A], rest, b);
    LinesInFirst(line, rest);
    LinesInFirst(line, rest + b);
  }

  /** Reading whole lines and then the rest is reading everything. */
  lemma {:induction false} LinesInConcat(a: Bytes, b: Bytes)
    requires EndsLine(a)
    ensures LinesIn(a + b) == LinesIn(a) + LinesIn(b)
    decreases |a|
  {
    if a == [] {
      Seqs.EmptyUnit(b);
      Seqs.EmptyUnit(LinesIn(b));
    } else {
      var line, rest := FirstLine(a);
      LinesInFirstOfBoth(a, line, rest, b);
      LinesInConcat(rest, b);
      Seqs.Reassociate([line], LinesIn(rest), LinesIn(b));
    }
  }
}
