/** Printing a prompt package as fenced Markdown, and why parsing gives exactly that package back. */
module PromptRoundTrip {
  import opened Results
  import opened Texts
  import opened ByteStrings
  import opened Utf8Text
  import opened Seqs
  import opened Packages
  import opened Prompts

  // ---------- The printer ----------

  function Quoted(v: string): string {
    "\"" + v + "\""
  }

  function PlainLine(key: string, v: string): string {
    key + ": " + v
  }

  function BareLine(key: string): string {
    key + ":"
  }

  function KeyLine(key: string, v: string): string {
    PlainLine(key, Quoted(v))
  }

  function OptionalLine(indent: string, key: string, v: Option<string>): seq<string> {
    match v
    case Some(s) => [indent + KeyLine(key, s)]
    case None => []
  }

  function BoolText(b: bool): string {
    if b then "true" else "false"
  }

  function DashItem(field: string): string {
    "- " + field
  }

  function ArgLines(arg: PackageArg): seq<string> {
    ["  " + DashItem(KeyLine("name", arg.name)),
     "    " + KeyLine("description", arg.description),
     "    " + PlainLine("required", BoolText(arg.required))] +
    OptionalLine("    ", "default", arg.default)
  }

  function AllArgLines(args: seq<PackageArg>): seq<string> {
    if args == [] then [] else ArgLines(args[0]) + AllArgLines(args[1..])
  }

  function HeaderText(p: PromptPackage): seq<string> {
    [KeyLine("name", p.name), KeyLine("description", p.description)] + OptionalLine("", "model", p.model) +
    ([BareLine("arguments")] + AllArgLines(p.arguments))
  }

  function Print(p: PromptPackage): string {
    "---\n" + (Unlines(HeaderText(p)) + "---\n" + p.body)
  }

  // ---------- Which packages can be authored ----------

  predicate OptionalScalar(v: Option<string>) {
    v.Some? ==> v.value != "" && OneLine(v.value)
  }

  predicate CanonicalArg(arg: PackageArg) {
    OneLine(arg.name) && OneLine(arg.description) && OptionalScalar(arg.default)
  }

  /** No scalar spans lines, arguments are named, and optional values are not empty strings. */
  ghost predicate Canonical(p: PromptPackage) {
    OneLine(p.name) && OneLine(p.description) && OptionalScalar(p.model) &&
    forall i :: 0 <= i < |p.arguments| ==> CanonicalArg(p.arguments[i]) && p.arguments[i].name != ""
  }

  // ---------- Lines and fences ----------

  /** A printed line: nothing in it ends the line early or makes it a fence. */
  predicate Plain(line: string) {
    OneLine(line) && line != "" && line[|line| - 1] != '\r' && line != "---"
  }

  ghost predicate AllPlain(lines: seq<string>) {
    forall i :: 0 <= i < |lines| ==> Plain(lines[i])
  }

  lemma {:induction false} LinesOfUnlines(lines: seq<string>)
    requires AllPlain(lines)
    ensures Lines(Unlines(lines)) == lines
  {
    if lines != [] {
      LinesOfFirst(lines[0], Unlines(lines[1..]));
      LinesOfUnlines(lines[1..]);
    }
  }

  lemma FirstLineEnd(s: string, from: nat, line: string)
    requires OneLine(line) && from + |line| < |s| && s[from..from + |line|] == line && s[from + |line|] == '\n'
    ensures LineEnd(s, from) == from + |line| + 1
  {
  }

  lemma TrimEolOfLine(line: string)
    requires OneLine(line) && line != "" && line[|line| - 1] != '\r'
    ensures TrimEol(line + "\n") == line
  {
  }

  /** Lines, then a fence, then the body. */
  function Fenced(lines: seq<string>, body: string): string {
    if lines == [] then "---" + "\n" + body else lines[0] + "\n" + Fenced(lines[1..], body)
  }

  lemma Reassociate4<T>(a: seq<T>, b: seq<T>, c: seq<T>, d: seq<T>, e: seq<T>)
    ensures a + b + (c + d + e) == (a + b + c) + d + e
  {
  }

  lemma {:induction false} FencedIsConcat(lines: seq<string>, body: string)
    ensures Fenced(lines, body) == Unlines(lines) + "---\n" + body
  {
    if lines == [] {
      EmptyUnit("---\n");
      assert "---" + "\n" == "---\n";
    } else {
      FencedIsConcat(lines[1..], body);
      Reassociate4(lines[0], "\n", Unlines(lines[1..]), "---\n", body);
    }
  }

  lemma LineInText(pre: string, line: string, rest: string)
    ensures var s := pre + (line + "\n" + rest);
            |s| == |pre| + |line| + 1 + |rest| && s[|pre|..|pre| + |line|] == line && s[|pre| + |line|] == '\n' &&
            s[|pre|..|pre| + |line| + 1] == line + "\n" && s == (pre + (line + "\n")) + rest
  {
  }

  lemma FenceStep(pre: string, line: string, rest: string)
    requires OneLine(line) && line != "" && line[|line| - 1] != '\r'
    ensures FenceAt(pre + (line + "\n" + rest), |pre|) ==
            if line == "---" then Some((|pre|, |pre| + 4))
            else FenceAt((pre + (line + "\n")) + rest, |pre + (line + "\n")|)
  {
    LineInText(pre, line, rest);
    FirstLineEnd(pre + (line + "\n" + rest), |pre|, line);
    TrimEolOfLine(line);
  }

  /** The closing fence is the first fence line after the header, whatever the body holds. */
  lemma {:induction false} FenceAfterHeader(pre: string, lines: seq<string>, body: string, start: nat)
    requires AllPlain(lines) && start == |pre| + |Unlines(lines)|
    ensures FenceAt(pre + Fenced(lines, body), |pre|) == Some((start, start + 4))
    decreases |lines|
  {
    if lines == [] {
      FenceStep(pre, "---", body);
    } else {
      var line, pre' := lines[0], pre + (lines[0] + "\n");
      assert Fenced(lines, body) == line + "\n" + Fenced(lines[1..], body);
      assert start == |pre'| + |Unlines(lines[1..])|;
      FenceStep(pre, line, Fenced(lines[1..], body));
      FenceAfterHeader(pre', lines[1..], body, start);
    }
  }

  lemma SplitInThree<T>(a: seq<T>, b: seq<T>, c: seq<T>)
    ensures (a + b + c)[..|a|] == a && (a + b + c)[|a| + |b|..] == c
  {
  }

  lemma SplitAtPrintedFence(lines: seq<string>, body: string)
    requires AllPlain(lines)
    ensures SplitAtFence(Unlines(lines) + "---\n" + body) == Some((Unlines(lines), body))
  {
    FencedIsConcat(lines, body);
    FenceAfterHeader("", lines, body, |Unlines(lines)|);
    EmptyUnit(Fenced(lines, body));
    SplitInThree(Unlines(lines), "---\n", body);
  }

  lemma OpeningFence(rest: string)
    ensures AfterOpeningFence("---\n" + rest) == Some(rest)
  {
  }

  lemma SplitPrinted(lines: seq<string>, body: string)
    requires AllPlain(lines)
    ensures SplitFrontmatter("---\n" + (Unlines(lines) + "---\n" + body)) == Some((Unlines(lines), body))
  {
    OpeningFence(Unlines(lines) + "---\n" + body);
    SplitAtPrintedFence(lines, body);
  }

  // ---------- One printed line ----------

  lemma TrimmedBothEnds(s: string)
    requires s != "" && !IsWhitespace(s[0]) && !IsWhitespace(s[|s| - 1])
    ensures TrimStart(s) == s && TrimEnd(s) == s && Trim(s) == s
  {
  }

  lemma Indented(indent: string, s: string)
    requires s != "" && !IsWhitespace(s[0]) && !IsWhitespace(s[|s| - 1])
    requires forall i :: 0 <= i < |indent| ==> indent[i] == ' '
    ensures TrimStart(indent + s) == s && TrimEnd(indent + s) == indent + s && Trim(indent + s) == s
  {
    if indent == "" {
      EmptyUnit(s);
    } else {
      Indented(indent[1..], s);
      FirstOfConcat(indent, s);
    }
  }

  predicate IsKey(key: string) {
    key != "" && ':' !in key && !IsWhitespace(key[0]) && !IsWhitespace(key[|key| - 1]) && key[0] != '-'
  }

  lemma KeyLineShape(key: string, v: string)
    requires IsKey(key)
    ensures var line := KeyLine(key, v);
            line != "" && line[0] == key[0] && line[|line| - 1] == '"' &&
            TrimStart(line) == line && TrimEnd(line) == line &&
            Trim(line) == line
  {
  }

  lemma PlainLineParts(key: string, v: string)
    ensures var line := PlainLine(key, v);
            line == key + [':'] + (" " + v) && line[..|key|] == key && line[|key| + 1..] == " " + v
  {
  }

  lemma SplitPlainLine(key: string, v: string)
    requires IsKey(key) && Trim(" " + v) == v
    ensures SplitKeyValue(PlainLine(key, v)) == Some((key, Unquote(v)))
  {
    PlainLineParts(key, v);
    IndexOfFirst(key, ':', " " + v);
    TrimmedBothEnds(key);
  }

  lemma QuotedIsTrimmed(v: string)
    ensures Trim(" " + Quoted(v)) == Quoted(v) && Unquote(Quoted(v)) == v
  {
    var q := Quoted(v);
    Indented(" ", q);
    assert q[1..|q| - 1] == v;
  }

  lemma SplitKeyLine(key: string, v: string)
    requires IsKey(key)
    ensures SplitKeyValue(KeyLine(key, v)) == Some((key, v))
  {
    QuotedIsTrimmed(v);
    SplitPlainLine(key, Quoted(v));
  }

  lemma BoolReadsBack(b: bool)
    ensures IsTrue(BoolText(b)) == b && Unquote(BoolText(b)) == BoolText(b)
  {
  }

  lemma BoolIsTrimmed(b: bool)
    ensures Trim(" " + BoolText(b)) == BoolText(b)
  {
    Indented(" ", BoolText(b));
  }

  lemma SplitBoolLine(b: bool)
    ensures SplitKeyValue(PlainLine("required", BoolText(b))) == Some(("required", BoolText(b)))
    ensures IsTrue(BoolText(b)) == b
  {
    BoolReadsBack(b);
    BoolIsTrimmed(b);
    SplitPlainLine("required", BoolText(b));
  }

  lemma TopLevelKeyLine(h: Header, key: string, v: string)
    requires IsKey(key)
    ensures HeaderLine(h, KeyLine(key, v)) == TopLevelLine(h, KeyLine(key, v))
  {
  }

  lemma {:induction false} HeaderLinesConcat(h: Header, a: seq<string>, b: seq<string>)
    ensures HeaderLines(h, a + b) == match HeaderLines(h, a)
                                     case Err(e) => Err(e)
                                     case Ok(h') => HeaderLines(h', b)
    decreases |a|
  {
    if a == [] {
      EmptyUnit(b);
    } else {
      FirstOfConcat(a, b);
      match HeaderLine(h, a[0])
      case Err(_) =>
      case Ok(h') => HeaderLinesConcat(h', a[1..], b);
    }
  }

  lemma OneHeaderLine(h: Header, line: string)
    ensures HeaderLines(h, [line]) == HeaderLine(h, line)
  {
  }

  // ---------- One printed argument ----------

  lemma IndentedLine(h: Header, indent: string, s: string)
    requires h.inArguments && indent != "" && forall i :: 0 <= i < |indent| ==> indent[i] == ' '
    requires s != "" && !IsWhitespace(s[0]) && !IsWhitespace(s[|s| - 1])
    ensures HeaderLine(h, indent + s) == ArgumentLine(h, indent + s) && TrimStart(indent + s) == s
  {
    Indented(indent, s);
  }

  lemma DashItemShape(field: string)
    requires field != "" && !IsWhitespace(field[0]) && !IsWhitespace(field[|field| - 1])
    ensures var item := DashItem(field);
            item != "" && item[0] == '-' && !IsWhitespace(item[|item| - 1]) && Trim(item[1..]) == field
  {
    assert DashItem(field)[1..] == " " + field;
    Indented(" ", field);
  }

  /** A dashed line starts a new argument. */
  lemma DashLine(h: Header, field: string, key: string, value: string)
    requires h.inArguments
    requires field != "" && !IsWhitespace(field[0]) && !IsWhitespace(field[|field| - 1])
    requires SplitKeyValue(field) == Some((key, value))
    ensures HeaderLine(h, "  " + DashItem(field)) ==
            Ok(h.Flush().(current := Some(ApplyArgField(BLANK_ARG, key, value))))
  {
    DashItemShape(field);
    IndentedLine(h, "  ", DashItem(field));
  }

  lemma NameField(h: Header, name: string)
    requires h.inArguments
    ensures HeaderLine(h, "  " + DashItem(KeyLine("name", name))) ==
            Ok(h.Flush().(current := Some(BLANK_ARG.(name := name))))
  {
    KeyLineShape("name", name);
    SplitKeyLine("name", name);
    DashLine(h, KeyLine("name", name), "name", name);
  }

  /** An indented line sets one field of the current argument. */
  lemma FieldLine(h: Header, field: string, key: string, value: string)
    requires h.inArguments && h.current.Some?
    requires field != "" && !IsWhitespace(field[0]) && field[0] != '-' && !IsWhitespace(field[|field| - 1])
    requires SplitKeyValue(field) == Some((key, value))
    ensures HeaderLine(h, "    " + field) == Ok(h.(current := Some(ApplyArgField(h.current.value, key, value))))
  {
    IndentedLine(h, "    ", field);
  }

  lemma ThreeLines(h: Header, h1: Header, h2: Header, h3: Header, l1: string, l2: string, l3: string)
    ensures HeaderLine(h, l1) == Ok(h1) && HeaderLine(h1, l2) == Ok(h2) && HeaderLine(h2, l3) == Ok(h3) ==>
              HeaderLines(h, [l1, l2, l3]) == Ok(h3)
  {
    assert [l1, l2, l3][1..] == [l2, l3] && [l2, l3][1..] == [l3];
    OneHeaderLine(h2, l3);
  }

  lemma DescriptionField(h: Header, arg: PackageArg)
    requires h.inArguments && h.current == Some(BLANK_ARG.(name := arg.name))
    ensures HeaderLine(h, "    " + KeyLine("description", arg.description)) ==
            Ok(h.(current := Some(BLANK_ARG.(name := arg.name, description := arg.description))))
  {
    KeyLineShape("description", arg.description);
    SplitKeyLine("description", arg.description);
    FieldLine(h, KeyLine("description", arg.description), "description", arg.description);
  }

  lemma RequiredField(h: Header, arg: PackageArg)
    requires h.inArguments && h.current == Some(BLANK_ARG.(name := arg.name, description := arg.description))
    ensures HeaderLine(h, "    " + PlainLine("required", BoolText(arg.required))) ==
            Ok(h.(current := Some(arg.(default := None))))
  {
    var field := PlainLine("required", BoolText(arg.required));
    SplitBoolLine(arg.required);
    assert field[0] == 'r' && field[|field| - 1] == 'e';
    FieldLine(h, field, "required", BoolText(arg.required));
  }

  lemma DefaultField(h: Header, arg: PackageArg)
    requires h.inArguments && h.current == Some(arg.(default := None)) && OptionalScalar(arg.default)
    ensures HeaderLines(h, OptionalLine("    ", "default", arg.default)) == Ok(h.(current := Some(arg)))
  {
    match arg.default
    case None =>
      assert HeaderLines(h, []) == Ok(h);
    case Some(d) =>
      KeyLineShape("default", d);
      SplitKeyLine("default", d);
      FieldLine(h, KeyLine("default", d), "default", d);
      OneHeaderLine(h, "    " + KeyLine("default", d));
  }

  lemma ArgParses(h: Header, arg: PackageArg)
    requires h.inArguments && OptionalScalar(arg.default)
    ensures HeaderLines(h, ArgLines(arg)) == Ok(h.Flush().(current := Some(arg)))
  {
    var h1 := h.Flush().(current := Some(BLANK_ARG.(name := arg.name)));
    var h2 := h1.(current := Some(BLANK_ARG.(name := arg.name, description := arg.description)));
    var h3 := h1.(current := Some(arg.(default := None)));
    NameField(h, arg.name);
    DescriptionField(h1, arg);
    RequiredField(h2, arg);
    DefaultField(h3, arg);
    var l1, l2 := "  " + DashItem(KeyLine("name", arg.name)), "    " + KeyLine("description", arg.description);
    var l3 := "    " + PlainLine("required", BoolText(arg.required));
    ThreeLines(h, h1, h2, h3, l1, l2, l3);
    HeaderLinesConcat(h, [l1, l2, l3], OptionalLine("    ", "default", arg.default));
  }

  lemma {:induction false} AllArgsParse(h: Header, args: seq<PackageArg>)
    requires h.inArguments && forall i :: 0 <= i < |args| ==> OptionalScalar(args[i].default)
    ensures var r := HeaderLines(h, AllArgLines(args));
            r.Ok? && r.value.Flush() == h.Flush().(arguments := h.Flush().arguments + args)
    decreases |args|
  {
    if args == [] {
      EmptyUnit(h.Flush().arguments);
    } else {
      var h1 := h.Flush().(current := Some(args[0]));
      ArgParses(h, args[0]);
      HeaderLinesConcat(h, ArgLines(args[0]), AllArgLines(args[1..]));
      AllArgsParse(h1, args[1..]);
      assert h1.Flush().arguments == h.Flush().arguments + [args[0]];
      Reassociate(h.Flush().arguments, [args[0]], args[1..]);
      assert [args[0]] + args[1..] == args;
    }
  }

  // ---------- The round trip ----------

  lemma PrintedLineIsPlain(indent: string, key: string, v: string)
    requires OneLine(indent) && OneLine(key) && OneLine(v) && v != "" && v[|v| - 1] != '\r' && v[|v| - 1] != '-'
    ensures Plain(indent + PlainLine(key, v))
  {
  }

  lemma OptionalLineIsPlain(indent: string, key: string, v: Option<string>)
    requires OneLine(indent) && OneLine(key) && OptionalScalar(v)
    ensures AllPlain(OptionalLine(indent, key, v))
  {
    if v.Some? {
      PrintedLineIsPlain(indent, key, Quoted(v.value));
    }
  }

  lemma FirstArgLinesArePlain(arg: PackageArg)
    requires CanonicalArg(arg)
    ensures Plain("  " + DashItem(KeyLine("name", arg.name)))
    ensures Plain("    " + KeyLine("description", arg.description))
    ensures Plain("    " + PlainLine("required", BoolText(arg.required)))
  {
    Reassociate("  ", "- ", KeyLine("name", arg.name));
    PrintedLineIsPlain("  " + "- ", "name", Quoted(arg.name));
    PrintedLineIsPlain("    ", "description", Quoted(arg.description));
    PrintedLineIsPlain("    ", "required", BoolText(arg.required));
  }

  lemma ArgLinesArePlain(arg: PackageArg)
    requires CanonicalArg(arg)
    ensures AllPlain(ArgLines(arg))
  {
    FirstArgLinesArePlain(arg);
    OptionalLineIsPlain("    ", "default", arg.default);
  }

  lemma PlainConcat(a: seq<string>, b: seq<string>)
    requires AllPlain(a) && AllPlain(b)
    ensures AllPlain(a + b)
  {
  }

  lemma {:induction false} AllArgLinesArePlain(args: seq<PackageArg>)
    requires forall i :: 0 <= i < |args| ==> CanonicalArg(args[i])
    ensures AllPlain(AllArgLines(args))
  {
    if args != [] {
      ArgLinesArePlain(args[0]);
      AllArgLinesArePlain(args[1..]);
      PlainConcat(ArgLines(args[0]), AllArgLines(args[1..]));
    }
  }

  lemma TopLineIsPlain(key: string, v: string)
    requires OneLine(key) && OneLine(v)
    ensures Plain(KeyLine(key, v))
  {
    PrintedLineIsPlain("", key, Quoted(v));
    EmptyUnit(KeyLine(key, v));
  }

  lemma HeaderTextIsPlain(p: PromptPackage)
    requires Canonical(p)
    ensures AllPlain(HeaderText(p))
  {
    var top := [KeyLine("name", p.name), KeyLine("description", p.description)];
    TopLineIsPlain("name", p.name);
    TopLineIsPlain("description", p.description);
    OptionalLineIsPlain("", "model", p.model);
    AllArgLinesArePlain(p.arguments);
    PlainConcat(top, OptionalLine("", "model", p.model));
    PlainConcat([BareLine("arguments")], AllArgLines(p.arguments));
    PlainConcat(top + OptionalLine("", "model", p.model), [BareLine("arguments")] + AllArgLines(p.arguments));
  }

  lemma NameLine(h: Header, name: string)
    requires h.current.None? && !h.inArguments
    ensures HeaderLines(h, [KeyLine("name", name)]) == Ok(h.(name := Some(name)))
  {
    TopLevelKeyLine(h, "name", name);
    SplitKeyLine("name", name);
    OneHeaderLine(h, KeyLine("name", name));
  }

  lemma DescriptionLine(h: Header, description: string)
    requires h.current.None? && !h.inArguments
    ensures HeaderLines(h, [KeyLine("description", description)]) == Ok(h.(description := description))
  {
    TopLevelKeyLine(h, "description", description);
    SplitKeyLine("description", description);
    OneHeaderLine(h, KeyLine("description", description));
  }

  lemma NameAndDescription(p: PromptPackage)
    ensures HeaderLines(EMPTY_HEADER, [KeyLine("name", p.name), KeyLine("description", p.description)]) ==
            Ok(EMPTY_HEADER.(name := Some(p.name), description := p.description))
  {
    var l1, l2 := KeyLine("name", p.name), KeyLine("description", p.description);
    NameLine(EMPTY_HEADER, p.name);
    DescriptionLine(EMPTY_HEADER.(name := Some(p.name)), p.description);
    HeaderLinesConcat(EMPTY_HEADER, [l1], [l2]);
    assert [l1] + [l2] == [l1, l2];
  }

  lemma ModelLine(h: Header, model: Option<string>)
    requires OptionalScalar(model) && h.current.None? && !h.inArguments && h.model.None?
    ensures HeaderLines(h, OptionalLine("", "model", model)) == Ok(h.(model := model))
  {
    match model
    case None =>
      assert HeaderLines(h, []) == Ok(h);
    case Some(m) =>
      EmptyUnit(KeyLine("model", m));
      assert OptionalLine("", "model", model) == [KeyLine("model", m)];
      TopLevelKeyLine(h, "model", m);
      SplitKeyLine("model", m);
      OneHeaderLine(h, KeyLine("model", m));
  }

  lemma SplitBareLine(key: string)
    requires IsKey(key)
    ensures SplitKeyValue(BareLine(key)) == Some((key, ""))
  {
    var line := BareLine(key);
    EmptyUnit(key + [':']);
    IndexOfFirst(key, ':', "");
    assert line[..|key|] == key && line[|key| + 1..] == "";
    TrimmedBothEnds(key);
  }

  lemma TopLevelBareLine(h: Header, key: string)
    requires IsKey(key)
    ensures HeaderLine(h, BareLine(key)) == TopLevelLine(h, BareLine(key))
  {
  }

  lemma BareKeyLine(h: Header, key: string)
    requires IsKey(key)
    ensures HeaderLines(h, [BareLine(key)]) == Ok(ApplyTopLevel(h.Flush().(inArguments := false), key, ""))
  {
    TopLevelBareLine(h, key);
    SplitBareLine(key);
    OneHeaderLine(h, BareLine(key));
  }

  lemma ArgumentsLine(h: Header)
    requires h.current.None?
    ensures HeaderLines(h, [BareLine("arguments")]) == Ok(h.(inArguments := true))
  {
    BareKeyLine(h, "arguments");
  }

  lemma HeaderParses(p: PromptPackage)
    requires Canonical(p)
    ensures var r := HeaderLines(EMPTY_HEADER, HeaderText(p));
            r.Ok? && r.value.Flush() == Header(Some(p.name), p.description, p.model, p.arguments, true, None)
  {
    var top := [KeyLine("name", p.name), KeyLine("description", p.description)];
    var h2 := EMPTY_HEADER.(name := Some(p.name), description := p.description);
    var h3 := h2.(model := p.model);
    NameAndDescription(p);
    ModelLine(h2, p.model);
    ArgumentsLine(h3);
    HeaderLinesConcat(EMPTY_HEADER, top, OptionalLine("", "model", p.model));
    HeaderLinesConcat(EMPTY_HEADER, top + OptionalLine("", "model", p.model),
                      [BareLine("arguments")] + AllArgLines(p.arguments));
    HeaderLinesConcat(h3, [BareLine("arguments")], AllArgLines(p.arguments));
    AllArgsParse(h3.(inArguments := true), p.arguments);
    EmptyUnit(p.arguments);
  }

  lemma TextRoundTrip(p: PromptPackage)
    requires Canonical(p)
    ensures FromText(Print(p)) == Ok(p)
  {
    HeaderTextIsPlain(p);
    SplitPrinted(HeaderText(p), p.body);
    LinesOfUnlines(HeaderText(p));
    HeaderParses(p);
  }

  /** Printing a canonical package and parsing it gives back the same package, its body verbatim, even
      if the body holds lines that look like fences. */
  lemma RoundTrip(p: PromptPackage)
    requires Canonical(p)
    ensures FromMarkdown(Encode(Print(p))) == Ok(p)
  {
    TextRoundTrip(p);
    DecodeEncode(Print(p));
  }

  // ---------- Everything the parser accepts is canonical ----------

  ghost predicate CleanHeader(h: Header) {
    (h.name.Some? ==> OneLine(h.name.value)) && OneLine(h.description) && OptionalScalar(h.model) &&
    (forall i :: 0 <= i < |h.arguments| ==> CanonicalArg(h.arguments[i])) &&
    (h.current.Some? ==> CanonicalArg(h.current.value))
  }

  lemma SplitKeepsOneLine(line: string)
    requires OneLine(line)
    ensures SplitKeyValue(line).Some? ==> OneLine(SplitKeyValue(line).value.1)
  {
    var i := IndexOf(line, ':');
    if i < |line| {
      TrimKeepsChars(line[i + 1..], '\n');
    }
  }

  lemma FlushKeepsClean(h: Header)
    requires CleanHeader(h)
    ensures CleanHeader(h.Flush()) && h.Flush().current.None?
  {
  }

  lemma ApplyKeepsCanonical(arg: PackageArg, key: string, value: string)
    requires CanonicalArg(arg) && OneLine(value)
    ensures CanonicalArg(ApplyArgField(arg, key, value))
  {
  }

  lemma ApplyTopLevelKeepsClean(h: Header, key: string, value: string)
    requires CleanHeader(h) && OneLine(value)
    ensures CleanHeader(ApplyTopLevel(h, key, value))
  {
  }

  lemma TopLevelKeepsClean(h: Header, line: string)
    requires CleanHeader(h) && OneLine(line)
    ensures TopLevelLine(h, line).Ok? ==> CleanHeader(TopLevelLine(h, line).value)
  {
    SplitKeepsOneLine(line);
    FlushKeepsClean(h);
    if SplitKeyValue(line).Some? {
      ApplyTopLevelKeepsClean(h.Flush().(inArguments := false),
                              SplitKeyValue(line).value.0, SplitKeyValue(line).value.1);
    }
  }

  lemma ArgumentKeepsClean(h: Header, line: string)
    requires CleanHeader(h) && OneLine(line)
    ensures ArgumentLine(h, line).Ok? ==> CleanHeader(ArgumentLine(h, line).value)
  {
    var stripped := TrimStart(line);
    TrimKeepsChars(line, '\n');
    FlushKeepsClean(h);
    if StartsWith(stripped, '-') {
      var rest := Trim(stripped[1..]);
      TrimKeepsChars(stripped[1..], '\n');
      SplitKeepsOneLine(rest);
      if SplitKeyValue(rest).Some? {
        ApplyKeepsCanonical(BLANK_ARG, SplitKeyValue(rest).value.0, SplitKeyValue(rest).value.1);
      }
    } else {
      SplitKeepsOneLine(stripped);
      if h.current.Some? && SplitKeyValue(stripped).Some? {
        ApplyKeepsCanonical(h.current.value, SplitKeyValue(stripped).value.0, SplitKeyValue(stripped).value.1);
      }
    }
  }

  lemma HeaderLineKeepsClean(h: Header, raw: string)
    requires CleanHeader(h) && OneLine(raw)
    ensures HeaderLine(h, raw).Ok? ==> CleanHeader(HeaderLine(h, raw).value)
  {
    TrimKeepsChars(raw, '\n');
    TopLevelKeepsClean(h, TrimEnd(raw));
    ArgumentKeepsClean(h, TrimEnd(raw));
  }

  lemma {:induction false} HeaderLinesKeepClean(h: Header, lines: seq<string>)
    requires CleanHeader(h) && forall i :: 0 <= i < |lines| ==> OneLine(lines[i])
    ensures HeaderLines(h, lines).Ok? ==> CleanHeader(HeaderLines(h, lines).value)
    decreases |lines|
  {
    if lines != [] {
      HeaderLineKeepsClean(h, lines[0]);
      if HeaderLine(h, lines[0]).Ok? {
        HeaderLinesKeepClean(HeaderLine(h, lines[0]).value, lines[1..]);
      }
    }
  }

  lemma AcceptedIsCanonical(text: string)
    ensures FromText(text).Ok? ==> Canonical(FromText(text).value)
  {
    if FromText(text).Ok? {
      var lines := Lines(SplitFrontmatter(text).value.0);
      forall i | 0 <= i < |lines|
        ensures OneLine(lines[i])
      {
        LinesHaveNoNewline(SplitFrontmatter(text).value.0, i);
      }
      HeaderLinesKeepClean(EMPTY_HEADER, lines);
    }
  }

  /** The canonical packages are exactly the ones some Markdown file parses to. */
  lemma CanonicalIffAuthorable(p: PromptPackage)
    ensures Canonical(p) <==> exists bytes :: FromMarkdown(bytes) == Ok(p)
  {
    if Canonical(p) {
      RoundTrip(p);
    }
    if bytes :| FromMarkdown(bytes) == Ok(p) {
      AcceptedIsCanonical(Decode(bytes));
    }
  }

  /** However a prompt was written, printing what was parsed and parsing again changes nothing. */
  lemma PrintingNormalizes(bytes: Bytes)
    ensures FromMarkdown(bytes).Ok? ==> FromMarkdown(Encode(Print(FromMarkdown(bytes).value))) == FromMarkdown(bytes)
  {
    if FromMarkdown(bytes).Ok? {
      AcceptedIsCanonical(Decode(bytes));
      RoundTrip(FromMarkdown(bytes).value);
    }
  }
}
