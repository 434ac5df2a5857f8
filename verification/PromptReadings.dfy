/** What single header lines of a prompt file say, in every way the source lets them be written. */
module PromptReadings {
  import opened Results
  import opened Texts
  import opened ByteStrings
  import opened Utf8Text
  import opened Seqs
  import opened Packages
  import opened Prompts
  import opened PromptRoundTrip

  // ---------- Scalars ----------

  /** Whitespace, a key, whitespace, a colon, whitespace, a scalar, whitespace. */
  datatype Spaced = Spaced(before: string, middle: string, left: string, after: string) {
    ghost predicate Valid() {
      AllWhitespace(before) && AllWhitespace(middle) && AllWhitespace(left) && AllWhitespace(after)
    }

    function Line(key: string, scalar: string): string {
      before + key + middle + ":" + (left + scalar + after)
    }
  }

  /** Two or more characters between the same double or single quotes. */
  predicate IsQuoted(s: string) {
    |s| >= 2 && s[0] == s[|s| - 1] && s[0] as int in {0x22, 0x27}
  }

  lemma LineSplits(sp: Spaced, key: string, scalar: string)
    requires sp.Valid() && Trimmed(key) && ':' !in key && Trimmed(scalar)
    ensures SplitKeyValue(sp.Line(key, scalar)) == Some((key, Unquote(scalar)))
  {
    var front, back := sp.before + key + sp.middle, sp.left + scalar + sp.after;
    IndexOfFirst(front, ':', back);
    assert sp.Line(key, scalar) == front + [':'] + back;
    SplitsBack(front, [':'] + back);
    assert sp.Line(key, scalar) == front + ([':'] + back);
    CutAfter(front, [':'] + back, 1);
    FirstOfConcat([':'], back);
    EmptyUnit(back);
    TrimExactly(sp.before, key, sp.middle);
    TrimExactly(sp.left, scalar, sp.after);
  }

  /** A scalar between double or single quotes stands for what is between them, spaces, colons and other
      quotes included; any other stands for itself. */
  lemma ScalarReads(sp: Spaced, key: string, quote: char, v: string, plain: string)
    requires sp.Valid() && Trimmed(key) && ':' !in key
    requires quote as int in {0x22, 0x27} && Trimmed(plain) && !IsQuoted(plain)
    ensures SplitKeyValue(sp.Line(key, [quote] + v + [quote])) == Some((key, v))
    ensures SplitKeyValue(sp.Line(key, plain)) == Some((key, plain))
  {
    var quoted := [quote] + v + [quote];
    assert quoted[1..|quoted| - 1] == v;
    LineSplits(sp, key, quoted);
    LineSplits(sp, key, plain);
  }

  /** `true`, in any mixture of cases. */
  predicate SpellsTrue(s: string) {
    |s| == 4 && s[0] in "tT" && s[1] in "rR" && s[2] in "uU" && s[3] in "eE"
  }

  lemma TrueExactly(s: string)
    ensures IsTrue(s) <==> SpellsTrue(s)
  {
  }

  // ---------- Top-level keys ----------

  ghost predicate IsTopLevel(line: string) {
    line != "" && !IsWhitespace(line[0]) && line[0] != '-'
  }

  lemma TopLevelIsRead(h: Header, line: string, after: string)
    requires IsTopLevel(line) && !IsWhitespace(line[|line| - 1]) && AllWhitespace(after)
    ensures HeaderLine(h, line + after) == TopLevelLine(h, line)
  {
    TrimEndPast(line, after);
  }

  /** The arguments read so far, the one being built included. */
  function ArgumentsOf(h: Header): seq<PackageArg> {
    h.arguments + if h.current.Some? then [h.current.value] else []
  }

  /** A key at the start of a line ends the arguments list and sets its own field; an empty model is none,
      and an unknown key sets nothing. */
  lemma KeysAreRead(h: Header, line: string, after: string, key: string, v: string)
    requires IsTopLevel(line) && !IsWhitespace(line[|line| - 1]) && AllWhitespace(after)
    requires SplitKeyValue(line) == Some((key, v))
    ensures HeaderLine(h, line + after) ==
            Ok(Header(if key == "name" then Some(v) else h.name,
                      if key == "description" then v else h.description,
                      if key == "model" then (if v == "" then None else Some(v)) else h.model,
                      ArgumentsOf(h), key == "arguments", None))
  {
    TopLevelIsRead(h, line, after);
    EmptyUnit(h.arguments);
  }

  lemma BlankIsSkipped(h: Header, line: string)
    requires AllWhitespace(line)
    ensures HeaderLine(h, line) == Ok(h)
  {
    TrimExactly(line, "", "");
    EmptySides(line);
    TrimEndPast("", line);
  }

  // ---------- Argument keys ----------

  /** An argument with one field set: an empty default is none, and an unknown key sets nothing. */
  function FieldSet(arg: PackageArg, key: string, v: string): PackageArg {
    PackageArg(if key == "name" then v else arg.name,
               if key == "description" then v else arg.description,
               if key == "required" then SpellsTrue(v) else arg.required,
               if key == "default" then (if v == "" then None else Some(v)) else arg.default)
  }

  lemma FieldIsSet(arg: PackageArg, key: string, v: string)
    ensures ApplyArgField(arg, key, v) == FieldSet(arg, key, v)
  {
    TrueExactly(v);
  }

  lemma IndentedIsTrimmed(indent: string, s: string, after: string)
    requires AllWhitespace(indent) && AllWhitespace(after) && s != "" && Trimmed(s)
    ensures TrimEnd(indent + s + after) == indent + s && TrimStart(indent + s) == s && Trim(indent + s) == s
  {
    var line := indent + s;
    assert line[|line| - 1] == s[|s| - 1];
    TrimEndPast(line, after);
    TrimStartPast(indent, s);
  }

  lemma TrimmedIsRead(h: Header, raw: string, line: string, s: string)
    requires line != "" && s != "" && TrimEnd(raw) == line && TrimStart(line) == s && Trim(line) == s
    requires IsWhitespace(line[0]) || s[0] == '-'
    ensures HeaderLine(h, raw) == if h.inArguments then ArgumentLine(h, line) else Err(UnexpectedIndent(line))
  {
  }

  /** Text behind whitespace, and whitespace behind it. */
  lemma IndentedIsRead(h: Header, indent: string, s: string, after: string)
    requires AllWhitespace(indent) && AllWhitespace(after) && s != "" && Trimmed(s)
    requires indent != "" || s[0] == '-'
    ensures HeaderLine(h, indent + s + after) ==
            if h.inArguments then ArgumentLine(h, indent + s) else Err(UnexpectedIndent(indent + s))
    ensures TrimStart(indent + s) == s
  {
    IndentedIsTrimmed(indent, s, after);
    assert indent != "" ==> (indent + s)[0] == indent[0];
    TrimmedIsRead(h, indent + s + after, indent + s, s);
  }

  lemma DashRest(middle: string, field: string)
    requires AllWhitespace(middle) && Trimmed(field)
    ensures Trim(("-" + middle + field)[1..]) == field
  {
    assert ("-" + middle + field)[1..] == middle + field;
    EmptySides(middle + field);
    TrimExactly(middle, field, "");
  }

  /** A dash, whatever the indentation, starts an argument that is unnamed, undescribed, optional and
      without a default but for the field on its line. */
  lemma DashIsRead(h: Header, indent: string, middle: string, field: string, after: string, key: string, v: string)
    requires h.inArguments && AllWhitespace(indent) && AllWhitespace(middle) && AllWhitespace(after)
    requires Trimmed(field) && field != "" && SplitKeyValue(field) == Some((key, v))
    ensures HeaderLine(h, indent + ("-" + middle + field) + after) ==
            Ok(Header(h.name, h.description, h.model, ArgumentsOf(h), true,
                      Some(FieldSet(PackageArg("", "", false, None), key, v))))
  {
    var item := "-" + middle + field;
    assert item[|item| - 1] == field[|field| - 1];
    IndentedIsRead(h, indent, item, after);
    DashRest(middle, field);
    FieldIsSet(PackageArg("", "", false, None), key, v);
    EmptyUnit(h.arguments);
  }

  lemma BareDashIsRead(h: Header, indent: string, after: string)
    requires h.inArguments && AllWhitespace(indent) && AllWhitespace(after)
    ensures HeaderLine(h, indent + "-" + after) ==
            Ok(Header(h.name, h.description, h.model, ArgumentsOf(h), true, Some(PackageArg("", "", false, None))))
  {
    IndentedIsRead(h, indent, "-", after);
    DashRest("", "");
    assert "-" + "" + "" == "-";
    EmptyUnit(h.arguments);
  }

  /** An indented line without a dash sets one field of the argument being built. */
  lemma FieldIsRead(h: Header, indent: string, field: string, after: string, key: string, v: string)
    requires h.inArguments && h.current.Some? && AllWhitespace(indent) && indent != "" && AllWhitespace(after)
    requires Trimmed(field) && field != "" && field[0] != '-' && SplitKeyValue(field) == Some((key, v))
    ensures HeaderLine(h, indent + field + after) == Ok(h.(current := Some(FieldSet(h.current.value, key, v))))
  {
    IndentedIsRead(h, indent, field, after);
    FieldIsSet(h.current.value, key, v);
  }

  // ---------- Which error ----------

  lemma NoColon(line: string)
    requires ':' !in line
    ensures SplitKeyValue(line) == None
  {
    IndexOfFirst(line, ':', "");
  }

  /** Text without a colon is no field, and an indented field needs an argument to belong to. */
  lemma BadLines(h: Header, indent: string, s: string, after: string)
    requires AllWhitespace(indent) && AllWhitespace(after) && Trimmed(s) && s != "" && s[0] != '-'
    ensures ':' !in s ==> HeaderLine(h, s + after) == Err(BadHeaderLine(s))
    ensures indent != "" && !h.inArguments ==> HeaderLine(h, indent + s + after) == Err(UnexpectedIndent(indent + s))
    ensures indent != "" && h.inArguments && h.current.None? ==>
              HeaderLine(h, indent + s + after) == Err(FieldBeforeDash(indent + s))
    ensures indent != "" && h.inArguments && h.current.Some? && ':' !in s ==>
              HeaderLine(h, indent + s + after) == Err(BadArgumentField(indent + s))
  {
    TopLevelIsRead(h, s, after);
    if ':' !in s {
      NoColon(s);
    }
    if indent != "" {
      IndentedIsRead(h, indent, s, after);
    }
  }

  lemma BadDashes(h: Header, indent: string, middle: string, s: string, after: string)
    requires AllWhitespace(indent) && AllWhitespace(middle) && AllWhitespace(after) && Trimmed(s) && s != ""
    ensures var line := indent + ("-" + middle + s);
            (!h.inArguments ==> HeaderLine(h, line + after) == Err(UnexpectedIndent(line))) &&
            (h.inArguments && ':' !in s ==> HeaderLine(h, line + after) == Err(BadArgumentLine(line)))
  {
    var item := "-" + middle + s;
    assert item[|item| - 1] == s[|s| - 1];
    IndentedIsRead(h, indent, item, after);
    DashRest(middle, s);
    if ':' !in s {
      NoColon(s);
    }
  }

  // ---------- Line ends ----------

  /** A line's end, with or without a carriage return. */
  function Eol(cr: bool): string {
    if cr then "\r" + "\n" else "\n"
  }

  function WithEnds(lines: seq<string>, crs: seq<bool>): string
    requires |lines| == |crs|
  {
    if lines == [] then "" else lines[0] + Eol(crs[0]) + WithEnds(lines[1..], crs[1..])
  }

  lemma LinesOfEnded(line: string, cr: bool, rest: string)
    requires OneLine(line) && (line == "" || line[|line| - 1] != '\r')
    ensures Lines(line + Eol(cr) + rest) == [line] + Lines(rest)
  {
    LinesOfFirst(line, rest);
    LineEnds(line, rest);
    Reassociate(line, "\r", "\n");
  }

  lemma {:induction false} LinesOfWithEnds(lines: seq<string>, crs: seq<bool>)
    requires |lines| == |crs| && AllPlain(lines)
    ensures Lines(WithEnds(lines, crs)) == lines
  {
    if lines != [] {
      LinesOfWithEnds(lines[1..], crs[1..]);
      LinesOfEnded(lines[0], crs[0], WithEnds(lines[1..], crs[1..]));
    }
  }

  lemma TrimEolOfEnd(line: string, cr: bool)
    requires OneLine(line) && line != "" && line[|line| - 1] != '\r'
    ensures TrimEol(line + Eol(cr)) == line
  {
    TrimEolOfLine(line);
    if cr {
      Reassociate(line, "\r", "\n");
      LastOfConcat(line + "\r", '\n');
      LastOfConcat(line, '\r');
    }
  }

  lemma EndInText(pre: string, line: string, cr: bool, rest: string)
    requires OneLine(line)
    ensures var s, ended := pre + (line + Eol(cr) + rest), line + Eol(cr);
            |pre| < |s| && LineEnd(s, |pre|) == |pre| + |ended| && s[|pre|..|pre| + |ended|] == ended &&
            s == (pre + ended) + rest
  {
    var content := if cr then line + "\r" else line;
    Reassociate(line, "\r", "\n");
    LineInText(pre, content, rest);
    FirstLineEnd(pre + (content + "\n" + rest), |pre|, content);
  }

  lemma FenceOrLater(pre: string, line: string, cr: bool, rest: string)
    requires OneLine(line) && line != "" && line[|line| - 1] != '\r'
    ensures var ended := line + Eol(cr);
            FenceAt(pre + (ended + rest), |pre|) ==
            if line == "---" then Some((|pre|, |pre + ended|)) else FenceAt((pre + ended) + rest, |pre + ended|)
  {
    EndInText(pre, line, cr, rest);
    TrimEolOfEnd(line, cr);
  }

  /** The header's lines, and then whatever follows. */
  function Above(lines: seq<string>, crs: seq<bool>, rest: string): string
    requires |lines| == |crs|
  {
    if lines == [] then rest else lines[0] + Eol(crs[0]) + Above(lines[1..], crs[1..], rest)
  }

  lemma {:induction false} AboveIsConcat(lines: seq<string>, crs: seq<bool>, rest: string)
    requires |lines| == |crs|
    ensures Above(lines, crs, rest) == WithEnds(lines, crs) + rest
  {
    if lines == [] {
      EmptyUnit(rest);
    } else {
      AboveIsConcat(lines[1..], crs[1..], rest);
      Reassociate(lines[0] + Eol(crs[0]), WithEnds(lines[1..], crs[1..]), rest);
    }
  }

  lemma {:induction false} FenceIsFound(pre: string, lines: seq<string>, crs: seq<bool>, cr: bool, body: string,
                                        start: nat)
    requires |lines| == |crs| && AllPlain(lines) && start == |pre| + |WithEnds(lines, crs)|
    ensures FenceAt(pre + Above(lines, crs, "---" + Eol(cr) + body), |pre|) == Some((start, start + 3 + |Eol(cr)|))
    decreases |lines|
  {
    if lines == [] {
      FenceOrLater(pre, "---", cr, body);
    } else {
      FenceOrLater(pre, lines[0], crs[0], Above(lines[1..], crs[1..], "---" + Eol(cr) + body));
      FenceIsFound(pre + (lines[0] + Eol(crs[0])), lines[1..], crs[1..], cr, body, start);
    }
  }

  lemma SplitsAtEnds(lines: seq<string>, crs: seq<bool>, header: string, close: bool, body: string)
    requires |lines| == |crs| && AllPlain(lines) && header == WithEnds(lines, crs)
    ensures SplitAtFence(header + ("---" + Eol(close) + body)) == Some((header, body))
  {
    var fence := "---" + Eol(close);
    AboveIsConcat(lines, crs, fence + body);
    FenceIsFound("", lines, crs, close, body, |header|);
    EmptyUnit(header + (fence + body));
    Reassociate(header, fence, body);
    SplitInThree(header, fence, body);
  }

  lemma OpeningIsTaken(open: bool, rest: string)
    ensures AfterOpeningFence("---" + Eol(open) + rest) == Some(rest)
  {
    var text := "---" + Eol(open) + rest;
    if open {
      assert "---\r\n" <= text && text[3] == '\r' && text[5..] == rest;
    } else {
      assert "---\n" <= text && text[4..] == rest;
    }
  }

  /** A file of these header lines and this body, each line and each fence with its own end. */
  function File(lines: seq<string>, crs: seq<bool>, open: bool, close: bool, body: string): string
    requires |lines| == |crs|
  {
    "---" + Eol(open) + (WithEnds(lines, crs) + ("---" + Eol(close) + body))
  }

  lemma FileIsRead(lines: seq<string>, crs: seq<bool>, open: bool, close: bool, body: string, h: Header)
    requires |lines| == |crs| && AllPlain(lines) && HeaderLines(EMPTY_HEADER, lines) == Ok(h)
    ensures FromText(File(lines, crs, open, close, body)) == Package(h, body)
  {
    var header := WithEnds(lines, crs);
    OpeningIsTaken(open, header + ("---" + Eol(close) + body));
    SplitsAtEnds(lines, crs, header, close, body);
    LinesOfWithEnds(lines, crs);
  }

  /** Each line of the header, and each fence, may end with or without a carriage return: the same
      package is read. */
  lemma LineEndsDoNotMatter(p: PromptPackage, crs: seq<bool>, open: bool, close: bool)
    requires Canonical(p) && |crs| == |HeaderText(p)|
    ensures FromMarkdown(Encode(File(HeaderText(p), crs, open, close, p.body))) == Ok(p)
  {
    HeaderTextIsPlain(p);
    HeaderParses(p);
    FileIsRead(HeaderText(p), crs, open, close, p.body, HeaderLines(EMPTY_HEADER, HeaderText(p)).value);
    DecodeEncode(File(HeaderText(p), crs, open, close, p.body));
  }

  // ---------- The smallest file ----------

  lemma PlainScalarIsTrimmed(v: string)
    requires Trimmed(v)
    ensures Trim(" " + v) == v
  {
    TrimExactly(" ", v, "");
    EmptyUnit(" " + v);
  }

  lemma NameIsRead(line: string, name: string)
    requires IsTopLevel(line) && !IsWhitespace(line[|line| - 1]) && SplitKeyValue(line) == Some(("name", name))
    ensures HeaderLines(EMPTY_HEADER, [line]) == Ok(EMPTY_HEADER.(name := Some(name)))
  {
    OneHeaderLine(EMPTY_HEADER, line);
    EmptyUnit(line);
    KeysAreRead(EMPTY_HEADER, line, "", "name", name);
  }

  lemma NameLineShape(name: string)
    requires Trimmed(name) && name != ""
    ensures var line := PlainLine("name", name);
            IsTopLevel(line) && !IsWhitespace(line[|line| - 1]) && (OneLine(name) ==> AllPlain([line]))
  {
    var line := PlainLine("name", name);
    assert line[0] == 'n' && line[|line| - 1] == name[|name| - 1];
  }

  lemma WithOneEnd(line: string)
    ensures WithEnds([line], [false]) == line + "\n"
  {
    assert [line][1..] == [] && [false][1..] == [];
    assert WithEnds([], []) == "";
    EmptyUnit(line + "\n");
  }

  lemma FileOfOneLine(line: string, body: string)
    ensures File([line], [false], false, false, body) == "---\n" + (line + "\n" + ("---\n" + body))
  {
    WithOneEnd(line);
    assert "---" + "\n" == "---\n";
  }

  /** A name and a body are enough: everything else is empty or absent. */
  lemma SmallestFile(name: string, body: string)
    requires Trimmed(name) && !IsQuoted(name) && name != "" && OneLine(name)
    ensures FromText("---\n" + (("name: " + name) + "\n" + ("---\n" + body))) ==
            Ok(PromptPackage(name, "", None, [], body))
  {
    var line := PlainLine("name", name);
    assert line == "name: " + name;
    PlainScalarIsTrimmed(name);
    SplitPlainLine("name", name);
    NameLineShape(name);
    NameIsRead(line, name);
    FileIsRead([line], [false], false, false, body, EMPTY_HEADER.(name := Some(name)));
    FileOfOneLine(line, body);
  }
}
