/** Prompts authored as Markdown: a fenced frontmatter header followed by the prompt body. */
module Prompts {
  import opened Results
  import opened Texts
  import opened ByteStrings
  import opened Utf8Text
  import opened Seqs
  import opened Packages

  datatype ParseError =
    | NotUtf8
    | NoFrontmatter
    | BadHeaderLine(line: string)
    | UnexpectedIndent(line: string)
    | BadArgumentLine(line: string)
    | FieldBeforeDash(line: string)
    | BadArgumentField(line: string)
    | MissingName
    | UnnamedArgument

  // ---------- The fence ----------

  function TrimEol(s: string): string {
    if s != "" && (s[|s| - 1] == '\n' || s[|s| - 1] == '\r') then TrimEol(s[..|s| - 1]) else s
  }

  /** The end of the line that contains `from`, its newline included. */
  function LineEnd(s: string, from: nat): (r: nat)
    requires from < |s|
    ensures from < r <= |s| && (r < |s| ==> s[r - 1] == '\n')
    ensures forall k :: from <= k < r - 1 ==> s[k] != '\n'
    decreases |s| - from
  {
    if s[from] == '\n' || from + 1 == |s| then from + 1 else LineEnd(s, from + 1)
  }

  /** Where the first line at or after idx that is exactly `---` starts and ends. */
  function FenceAt(s: string, idx: nat): (r: Option<(nat, nat)>)
    requires idx <= |s|
    ensures r.Some? ==> idx <= r.value.0 <= r.value.1 <= |s|
    decreases |s| - idx
  {
    if idx == |s| then None
    else
      var end := LineEnd(s, idx);
      if TrimEol(s[idx..end]) == "---" then Some((idx, end)) else FenceAt(s, end)
  }

  /** The frontmatter and the body of the text after the opening fence. */
  function SplitAtFence(s: string): Option<(string, string)> {
    match FenceAt(s, 0)
    case None => None
    case Some(fence) => Some((s[..fence.0], s[fence.1..]))
  }

  function AfterOpeningFence(text: string): Option<string> {
    if "---\n" <= text then Some(text[4..])
    else if "---\r\n" <= text then Some(text[5..])
    else None
  }

  function SplitFrontmatter(text: string): Option<(string, string)> {
    match AfterOpeningFence(text)
    case None => None
    case Some(rest) => SplitAtFence(rest)
  }

  method FindFence(rest: string) returns (r: Option<(string, string)>)
    ensures r == SplitAtFence(rest)
  {
    var idx := 0;
    while idx < |rest|
      invariant idx <= |rest| && FenceAt(rest, idx) == FenceAt(rest, 0)
      decreases |rest| - idx
    {
      var end := LineEnd(rest, idx);
      if TrimEol(rest[idx..end]) == "---" {
        return Some((rest[..idx], rest[end..]));
      }
      idx := end;
    }
    return None;
  }

  method SplitMarkdown(text: string) returns (r: Option<(string, string)>)
    ensures r == SplitFrontmatter(text)
  {
    var rest := AfterOpeningFence(text);
    if rest.None? {
      return None;
    }
    r := FindFence(rest.value);
  }

  // ---------- Key and value ----------

  function Unquote(s: string): string {
    if |s| >= 2 && ((s[0] == '"' && s[|s| - 1] == '"') || (s[0] == '\'' && s[|s| - 1] == '\''))
    then s[1..|s| - 1]
    else s
  }

  function SplitKeyValue(line: string): Option<(string, string)> {
    var i := IndexOf(line, ':');
    if i == |line| then None else Some((Trim(line[..i]), Unquote(Trim(line[i + 1..]))))
  }

  function AsciiLower(c: char): char {
    if 'A' <= c <= 'Z' then (c as int + 32) as char else c
  }

  predicate IsTrue(s: string) {
    |s| == 4 && AsciiLower(s[0]) == 't' && AsciiLower(s[1]) == 'r' && AsciiLower(s[2]) == 'u' && AsciiLower(s[3]) == 'e'
  }

  function NonEmpty(s: string): Option<string> {
    if s == "" then None else Some(s)
  }

  function ApplyArgField(arg: PackageArg, key: string, value: string): PackageArg {
    if key == "name" then arg.(name := value)
    else if key == "description" then arg.(description := value)
    else if key == "required" then arg.(required := IsTrue(value))
    else if key == "default" then arg.(default := NonEmpty(value))
    else arg
  }

  // ---------- The header, line by line ----------

  datatype Header = Header(
    name: Option<string>,
    description: string,
    model: Option<string>,
    arguments: seq<PackageArg>,
    inArguments: bool,
    current: Option<PackageArg>)
  {
    /** The argument being built joins the list. */
    function Flush(): Header {
      match current
      case Some(arg) => this.(arguments := arguments + [arg], current := None)
      case None => this
    }
  }

  const EMPTY_HEADER := Header(None, "", None, [], false, None)
  const BLANK_ARG := PackageArg("", "", false, None)

  predicate StartsWith(s: string, c: char) {
    s != "" && s[0] == c
  }

  /** Unknown keys are ignored. */
  function ApplyTopLevel(h: Header, key: string, value: string): Header {
    if key == "name" then h.(name := Some(value))
    else if key == "description" then h.(description := value)
    else if key == "model" then h.(model := NonEmpty(value))
    else if key == "arguments" then h.(inArguments := true)
    else h
  }

  function TopLevelLine(h: Header, line: string): Result<Header, ParseError> {
    match SplitKeyValue(line)
    case None => Err(BadHeaderLine(line))
    case Some((key, value)) => Ok(ApplyTopLevel(h.Flush().(inArguments := false), key, value))
  }

  function ArgumentLine(h: Header, line: string): Result<Header, ParseError> {
    var stripped := TrimStart(line);
    if StartsWith(stripped, '-') then
      var rest := Trim(stripped[1..]);
      if rest == "" then Ok(h.Flush().(current := Some(BLANK_ARG)))
      else
        match SplitKeyValue(rest)
        case None => Err(BadArgumentLine(line))
        case Some((key, value)) => Ok(h.Flush().(current := Some(ApplyArgField(BLANK_ARG, key, value))))
    else if h.current.None? then Err(FieldBeforeDash(line))
    else
      match SplitKeyValue(stripped)
      case None => Err(BadArgumentField(line))
      case Some((key, value)) => Ok(h.(current := Some(ApplyArgField(h.current.value, key, value))))
  }

  function HeaderLine(h: Header, raw: string): Result<Header, ParseError> {
    var line := TrimEnd(raw);
    if Trim(line) == "" then Ok(h)
    else if !IsWhitespace(line[0]) && !StartsWith(TrimStart(line), '-') then TopLevelLine(h, line)
    else if !h.inArguments then Err(UnexpectedIndent(line))
    else ArgumentLine(h, line)
  }

  function HeaderLines(h: Header, lines: seq<string>): Result<Header, ParseError>
    decreases |lines|
  {
    if lines == [] then Ok(h)
    else
      match HeaderLine(h, lines[0])
      case Err(e) => Err(e)
      case Ok(h') => HeaderLines(h', lines[1..])
  }

  function Package(h: Header, body: string): Result<PromptPackage, ParseError> {
    var flushed := h.Flush();
    if flushed.name.None? then Err(MissingName)
    else if exists i :: 0 <= i < |flushed.arguments| && flushed.arguments[i].name == "" then Err(UnnamedArgument)
    else Ok(PromptPackage(flushed.name.value, flushed.description, flushed.model, flushed.arguments, body))
  }

  function FromText(text: string): Result<PromptPackage, ParseError> {
    match SplitFrontmatter(text)
    case None => Err(NoFrontmatter)
    case Some((frontmatter, body)) =>
      match HeaderLines(EMPTY_HEADER, Lines(frontmatter))
      case Err(e) => Err(e)
      case Ok(h) => Package(h, body)
  }

  function FromMarkdown(bytes: Bytes): Result<PromptPackage, ParseError> {
    if Utf8(bytes) then FromText(Decode(bytes)) else Err(NotUtf8)
  }

  method ReadHeader(lines: seq<string>) returns (r: Result<Header, ParseError>)
    ensures r == HeaderLines(EMPTY_HEADER, lines)
  {
    var h := EMPTY_HEADER;
    SplitAt(lines, 0);
    for i := 0 to |lines|
      invariant HeaderLines(h, lines[i..]) == HeaderLines(EMPTY_HEADER, lines)
    {
      FirstFrom(lines, i);
      var next := HeaderLine(h, lines[i]);
      if next.Err? {
        return next;
      }
      h := next.value;
    }
    return Ok(h);
  }

  method Finish(h: Header, body: string) returns (r: Result<PromptPackage, ParseError>)
    ensures r == Package(h, body)
  {
    var flushed := h.Flush();
    if flushed.name.None? {
      return Err(MissingName);
    }
    for i := 0 to |flushed.arguments|
      invariant forall j :: 0 <= j < i ==> flushed.arguments[j].name != ""
    {
      if flushed.arguments[i].name == "" {
        return Err(UnnamedArgument);
      }
    }
    return Ok(PromptPackage(flushed.name.value, flushed.description, flushed.model, flushed.arguments, body));
  }

  method ParseMarkdown(bytes: Bytes) returns (r: Result<PromptPackage, ParseError>)
    ensures r == FromMarkdown(bytes)
  {
    if !Utf8(bytes) {
      return Err(NotUtf8);
    }
    var split := SplitMarkdown(Decode(bytes));
    if split.None? {
      return Err(NoFrontmatter);
    }
    var header := ReadHeader(Lines(split.value.0));
    if header.Err? {
      return Err(header.error);
    }
    r := Finish(header.value, split.value.1);
  }
}
