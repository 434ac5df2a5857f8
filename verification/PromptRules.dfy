/** Which prompt files are accepted, said of the file as a whole: no parser state appears here. */
module PromptRules {
  import opened Results
  import opened Texts
  import opened ByteStrings
  import opened Utf8Text
  import opened Seqs
  import opened Folds
  import opened Packages
  import opened Prompts

  // ---------- The closing fence ----------

  ghost predicate LineStart(s: string, a: nat) {
    a <= |s| && (a == 0 || s[a - 1] == '\n')
  }

  /** A line that is exactly three dashes starts at `a`. */
  ghost predicate IsFence(s: string, a: nat) {
    a < |s| && LineStart(s, a) && TrimEol(s[a..LineEnd(s, a)]) == "---"
  }

  lemma {:induction false} FenceFrom(s: string, idx: nat)
    requires LineStart(s, idx)
    ensures match FenceAt(s, idx)
            case Some(f) => IsFence(s, f.0) && f.1 == LineEnd(s, f.0) &&
              forall a: nat :: idx <= a < f.0 ==> !IsFence(s, a)
            case None => forall a: nat :: idx <= a ==> !IsFence(s, a)
    decreases |s| - idx
  {
    if idx < |s| && FenceAt(s, idx) != Some((idx, LineEnd(s, idx))) {
      var end := LineEnd(s, idx);
      assert !IsFence(s, idx);
      forall a: nat | idx < a < end
        ensures !LineStart(s, a)
      {
        assert s[a - 1] != '\n';
      }
      if end < |s| {
        FenceFrom(s, end);
      }
    }
  }

  /** The header ends at the first line that is exactly three dashes, and only at such a line. */
  lemma ClosingFenceIsTheFirst(s: string, front: string, body: string)
    ensures SplitAtFence(s) == Some((front, body)) <==>
            exists a: nat :: IsFence(s, a) && (forall b: nat :: b < a ==> !IsFence(s, b)) &&
                             front == s[..a] && body == s[LineEnd(s, a)..]
  {
    FenceFrom(s, 0);
    if FenceAt(s, 0).Some? {
      var a := FenceAt(s, 0).value.0;
      assert SplitAtFence(s) == Some((s[..a], s[LineEnd(s, a)..]));
      forall b: nat | IsFence(s, b) && forall c: nat :: c < b ==> !IsFence(s, c)
        ensures a == b
      {
        assert a <= b && b <= a;
      }
    }
  }

  // ---------- What a header line is, by itself ----------

  /** `name` is what the line sets the argument's name to, if it does. */
  datatype Kind =
    | Blank
    | Top(key: string)
    | Item(name: Option<string>)
    | Field(name: Option<string>)
    | Malformed

  function NameSet(line: string): Option<string>
    requires ':' in line
  {
    var i := IndexOf(line, ':');
    if Trim(line[..i]) == "name" then Some(Unquote(Trim(line[i + 1..]))) else None
  }

  function KindOf(raw: string): Kind {
    var line := TrimEnd(raw);
    var stripped := TrimStart(line);
    if Trim(line) == "" then Blank
    else if StartsWith(stripped, '-') then
      var rest := Trim(stripped[1..]);
      if rest == "" then Item(None) else if ':' in rest then Item(NameSet(rest)) else Malformed
    else if IsWhitespace(line[0]) then if ':' in stripped then Field(NameSet(stripped)) else Malformed
    else if ':' in line then Top(Trim(line[..IndexOf(line, ':')])) else Malformed
  }

  function Kinds(lines: seq<string>): seq<Kind> {
    Mapped(KindOf, lines)
  }

  // ---------- Where it may stand ----------

  /** No top-level line strictly between the two. */
  ghost predicate NoTop(kinds: seq<Kind>, after: nat, to: nat)
    requires to <= |kinds|
  {
    forall u :: after < u < to ==> !kinds[u].Top?
  }

  /** The latest top-level line above line i is `arguments`. */
  ghost predicate UnderArguments(kinds: seq<Kind>, i: nat)
    requires i <= |kinds|
  {
    exists t :: 0 <= t < i && kinds[t] == Top("arguments") && NoTop(kinds, t, i)
  }

  /** Line t starts an item, and neither a top-level line nor another item stands between it and line i. */
  ghost predicate OpenItem(kinds: seq<Kind>, t: nat, i: nat)
    requires i <= |kinds|
  {
    t < i && kinds[t].Item? && forall u :: t < u < i ==> !kinds[u].Top? && !kinds[u].Item?
  }

  ghost predicate UnderItem(kinds: seq<Kind>, i: nat)
    requires i <= |kinds|
  {
    exists t :: OpenItem(kinds, t, i)
  }

  ghost predicate NamedAbove(kinds: seq<Kind>, i: nat)
    requires i <= |kinds|
  {
    exists t :: 0 <= t < i && kinds[t] == Top("name")
  }

  ghost predicate Allowed(kinds: seq<Kind>, i: nat)
    requires i < |kinds|
  {
    !kinds[i].Malformed? &&
    (kinds[i].Item? || kinds[i].Field? ==> UnderArguments(kinds, i)) &&
    (kinds[i].Field? ==> UnderItem(kinds, i))
  }

  ghost predicate AllAllowed(kinds: seq<Kind>) {
    forall i :: 0 <= i < |kinds| ==> Allowed(kinds, i)
  }

  function NameOr(name: Option<string>, otherwise: string): string {
    match name
    case Some(v) => v
    case None => otherwise
  }

  /** The last name that the item started by line t gets in the lines above line i, or nothing. */
  ghost function LastName(kinds: seq<Kind>, t: nat, i: nat): string
    requires t < i <= |kinds| && kinds[t].Item?
    decreases i
  {
    if i == t + 1 then NameOr(kinds[t].name, "")
    else
      var before := LastName(kinds, t, i - 1);
      if OpenItem(kinds, t, i - 1) && kinds[i - 1].Field? then NameOr(kinds[i - 1].name, before) else before
  }

  ghost predicate UnnamedItem(kinds: seq<Kind>, t: nat, i: nat)
    requires i <= |kinds|
  {
    t < i && kinds[t].Item? && LastName(kinds, t, i) == ""
  }

  // ---------- One line of the parser, by its kind ----------

  lemma ColonSplits(s: string)
    ensures SplitKeyValue(s).Some? <==> ':' in s
    ensures SplitKeyValue(s).Some? ==> SplitKeyValue(s).value.0 == Trim(s[..IndexOf(s, ':')])
    ensures SplitKeyValue(s).Some? ==> SplitKeyValue(s).value.1 == Unquote(Trim(s[IndexOf(s, ':') + 1..]))
  {
  }

  predicate Takes(h: Header, kind: Kind) {
    !kind.Malformed? && (kind.Item? || kind.Field? ==> h.inArguments) && (kind.Field? ==> h.current.Some?)
  }

  /** What a line of that kind makes of the parser's variables. */
  ghost predicate Moves(h: Header, kind: Kind, h': Header) {
    (h'.inArguments <==> if kind.Top? then kind.key == "arguments" else h.inArguments) &&
    (h'.name.Some? <==> kind == Top("name") || h.name.Some?) &&
    h'.arguments == (if kind.Top? || kind.Item? then h.Flush().arguments else h.arguments) &&
    (h'.current.Some? <==> kind.Item? || (!kind.Top? && h.current.Some?)) &&
    (kind.Item? ==> h'.current.value.name == NameOr(kind.name, "")) &&
    (h'.current.Some? && !kind.Item? ==>
      h'.current.value.name == NameOr(if kind.Field? then kind.name else None, h.current.value.name))
  }

  lemma TopMoves(h: Header, key: string, value: string)
    ensures Moves(h, Top(key), ApplyTopLevel(h.Flush().(inArguments := false), key, value))
  {
  }

  lemma TopLevelByKind(h: Header, line: string)
    ensures TopLevelLine(h, line).Ok? <==> ':' in line
    ensures TopLevelLine(h, line).Ok? ==>
              Moves(h, Top(Trim(line[..IndexOf(line, ':')])), TopLevelLine(h, line).value)
  {
    ColonSplits(line);
    if ':' in line {
      TopMoves(h, SplitKeyValue(line).value.0, SplitKeyValue(line).value.1);
    }
  }

  lemma FieldName(arg: PackageArg, line: string)
    requires ':' in line
    ensures SplitKeyValue(line).Some?
    ensures var (key, value) := SplitKeyValue(line).value;
            ApplyArgField(arg, key, value).name == NameOr(NameSet(line), arg.name)
  {
    ColonSplits(line);
  }

  lemma ItemMoves(h: Header, arg: PackageArg, name: Option<string>)
    requires arg.name == NameOr(name, "")
    ensures Moves(h, Item(name), h.Flush().(current := Some(arg)))
  {
  }

  lemma ItemByKind(h: Header, line: string, rest: string)
    requires h.inArguments && StartsWith(TrimStart(line), '-') && rest == Trim(TrimStart(line)[1..])
    ensures ArgumentLine(h, line).Ok? <==> rest == "" || ':' in rest
    ensures ArgumentLine(h, line).Ok? ==>
              Moves(h, Item(if rest == "" then None else NameSet(rest)), ArgumentLine(h, line).value)
  {
    if rest == "" {
      ItemMoves(h, BLANK_ARG, None);
    } else if ':' in rest {
      FieldName(BLANK_ARG, rest);
      var (key, value) := SplitKeyValue(rest).value;
      ItemMoves(h, ApplyArgField(BLANK_ARG, key, value), NameSet(rest));
    } else {
      ColonSplits(rest);
    }
  }

  lemma FieldMoves(h: Header, arg: PackageArg, name: Option<string>)
    requires h.current.Some? && arg.name == NameOr(name, h.current.value.name)
    ensures Moves(h, Field(name), h.(current := Some(arg)))
  {
  }

  lemma FieldByKind(h: Header, line: string, field: string)
    requires h.inArguments && field == TrimStart(line) && !StartsWith(field, '-')
    ensures ArgumentLine(h, line).Ok? <==> h.current.Some? && ':' in field
    ensures ArgumentLine(h, line).Ok? ==> Moves(h, Field(NameSet(field)), ArgumentLine(h, line).value)
  {
    if h.current.Some? && ':' in field {
      FieldName(h.current.value, field);
      var (key, value) := SplitKeyValue(field).value;
      FieldMoves(h, ApplyArgField(h.current.value, key, value), NameSet(field));
    } else {
      ColonSplits(field);
    }
  }

  lemma LineByKind(h: Header, raw: string)
    ensures HeaderLine(h, raw).Ok? <==> Takes(h, KindOf(raw))
    ensures HeaderLine(h, raw).Ok? ==> Moves(h, KindOf(raw), HeaderLine(h, raw).value)
  {
    var line := TrimEnd(raw);
    if Trim(line) != "" {
      if !IsWhitespace(line[0]) && !StartsWith(TrimStart(line), '-') {
        TopLevelByKind(h, line);
      } else if h.inArguments && StartsWith(TrimStart(line), '-') {
        ItemByKind(h, line, Trim(TrimStart(line)[1..]));
      } else if h.inArguments {
        FieldByKind(h, line, TrimStart(line));
      }
    }
  }

  // ---------- The lines above, one line further down ----------

  lemma UnderArgumentsNext(kinds: seq<Kind>, n: nat)
    requires n < |kinds|
    ensures UnderArguments(kinds, n + 1) <==>
            if kinds[n].Top? then kinds[n] == Top("arguments") else UnderArguments(kinds, n)
  {
    assert NoTop(kinds, n, n + 1);
    forall t | 0 <= t < n
      ensures NoTop(kinds, t, n + 1) <==> NoTop(kinds, t, n) && !kinds[n].Top?
    {
    }
  }

  lemma OpenItemNext(kinds: seq<Kind>, t: nat, n: nat)
    requires n < |kinds|
    ensures OpenItem(kinds, t, n + 1) <==>
            if kinds[n].Item? then t == n else !kinds[n].Top? && OpenItem(kinds, t, n)
  {
  }

  lemma UnderItemNext(kinds: seq<Kind>, n: nat)
    requires n < |kinds|
    ensures UnderItem(kinds, n + 1) <==> kinds[n].Item? || (!kinds[n].Top? && UnderItem(kinds, n))
  {
    var next := n + 1;
    OpenItemNext(kinds, n, n);
    if t: nat :| OpenItem(kinds, t, n) {
      OpenItemNext(kinds, t, n);
    }
    if t: nat :| OpenItem(kinds, t, next) {
      OpenItemNext(kinds, t, n);
    }
  }

  /** An argument already in the list has no name exactly when some closed item has none. */
  ghost predicate ClosedUnnamed(kinds: seq<Kind>, n: nat)
    requires n <= |kinds|
  {
    exists t :: UnnamedItem(kinds, t, n) && !OpenItem(kinds, t, n)
  }

  ghost predicate SomeUnnamed(arguments: seq<PackageArg>) {
    exists i :: 0 <= i < |arguments| && arguments[i].name == ""
  }

  /** The parser's variables say where line n stands. */
  ghost predicate StandsAt(kinds: seq<Kind>, n: nat, h: Header)
    requires n <= |kinds|
  {
    (h.inArguments <==> UnderArguments(kinds, n)) && (h.current.Some? <==> UnderItem(kinds, n)) &&
    (h.name.Some? <==> NamedAbove(kinds, n))
  }

  /** And what the items above line n are called. */
  ghost predicate NamesAt(kinds: seq<Kind>, n: nat, h: Header)
    requires n <= |kinds|
  {
    (SomeUnnamed(h.arguments) <==> ClosedUnnamed(kinds, n)) &&
    forall t :: OpenItem(kinds, t, n) && h.current.Some? ==> LastName(kinds, t, n) == h.current.value.name
  }

  lemma TakesWhatIsAllowed(kinds: seq<Kind>, n: nat, h: Header)
    requires n < |kinds| && StandsAt(kinds, n, h)
    ensures Takes(h, kinds[n]) <==> Allowed(kinds, n)
  {
  }

  lemma StandsNext(kinds: seq<Kind>, n: nat, h: Header, h': Header)
    requires n < |kinds| && StandsAt(kinds, n, h) && Moves(h, kinds[n], h')
    ensures StandsAt(kinds, n + 1, h')
  {
    UnderArgumentsNext(kinds, n);
    UnderItemNext(kinds, n);
  }

  lemma SomeUnnamedLast(arguments: seq<PackageArg>, arg: PackageArg)
    ensures SomeUnnamed(arguments + [arg]) <==> SomeUnnamed(arguments) || arg.name == ""
  {
    assert (arguments + [arg])[|arguments|] == arg;
    assert forall i :: 0 <= i < |arguments| ==> (arguments + [arg])[i] == arguments[i];
  }

  /** A line that is neither an item nor top-level closes nothing. */
  lemma NamesNextInside(kinds: seq<Kind>, n: nat, h: Header, h': Header)
    requires n < |kinds| && StandsAt(kinds, n, h) && NamesAt(kinds, n, h) && Moves(h, kinds[n], h')
    requires !kinds[n].Item? && !kinds[n].Top?
    ensures NamesAt(kinds, n + 1, h')
  {
    forall t: nat | t <= n
      ensures OpenItem(kinds, t, n + 1) <==> OpenItem(kinds, t, n)
      ensures t < n && kinds[t].Item? && !OpenItem(kinds, t, n) ==> LastName(kinds, t, n + 1) == LastName(kinds, t, n)
    {
      OpenItemNext(kinds, t, n);
    }
  }

  lemma ClosedNext(kinds: seq<Kind>, n: nat)
    requires n < |kinds| && (kinds[n].Item? || kinds[n].Top?)
    ensures ClosedUnnamed(kinds, n + 1) <==>
            ClosedUnnamed(kinds, n) || exists t :: OpenItem(kinds, t, n) && LastName(kinds, t, n) == ""
  {
    forall t: nat | t < n && kinds[t].Item?
      ensures !OpenItem(kinds, t, n + 1) && LastName(kinds, t, n + 1) == LastName(kinds, t, n)
    {
      OpenItemNext(kinds, t, n);
    }
    var next := n + 1;
    if t: nat :| UnnamedItem(kinds, t, next) && !OpenItem(kinds, t, next) {
      OpenItemNext(kinds, t, n);
      assert UnnamedItem(kinds, t, n);
    }
    if t: nat :| UnnamedItem(kinds, t, n) {
      assert UnnamedItem(kinds, t, n + 1);
    }
    if t: nat :| OpenItem(kinds, t, n) && LastName(kinds, t, n) == "" {
      assert UnnamedItem(kinds, t, n + 1);
    }
  }

  /** An item or a top-level line closes the item above it, and its argument joins the list. */
  lemma NamesNextClosing(kinds: seq<Kind>, n: nat, h: Header, h': Header)
    requires n < |kinds| && StandsAt(kinds, n, h) && NamesAt(kinds, n, h) && Moves(h, kinds[n], h')
    requires kinds[n].Item? || kinds[n].Top?
    ensures NamesAt(kinds, n + 1, h')
  {
    var next := n + 1;
    ClosedNext(kinds, n);
    forall t: nat
      ensures OpenItem(kinds, t, next) <==> kinds[n].Item? && t == n
    {
      OpenItemNext(kinds, t, n);
    }
    if h.current.Some? {
      SomeUnnamedLast(h.arguments, h.current.value);
    }
  }

  // ---------- Acceptance ----------

  ghost predicate ReadUpTo(kinds: seq<Kind>, n: nat, h: Header)
    requires n <= |kinds|
  {
    StandsAt(kinds, n, h) && NamesAt(kinds, n, h)
  }

  lemma LineReads(kinds: seq<Kind>, n: nat, h: Header, raw: string)
    requires n < |kinds| && kinds[n] == KindOf(raw) && ReadUpTo(kinds, n, h) && HeaderLine(h, raw).Ok?
    ensures ReadUpTo(kinds, n + 1, HeaderLine(h, raw).value)
  {
    var h' := HeaderLine(h, raw).value;
    LineByKind(h, raw);
    StandsNext(kinds, n, h, h');
    if kinds[n].Item? || kinds[n].Top? {
      NamesNextClosing(kinds, n, h, h');
    } else {
      NamesNextInside(kinds, n, h, h');
    }
  }

  lemma LineAllowed(kinds: seq<Kind>, n: nat, h: Header, raw: string)
    requires n < |kinds| && kinds[n] == KindOf(raw) && ReadUpTo(kinds, n, h)
    ensures HeaderLine(h, raw).Ok? <==> Allowed(kinds, n)
  {
    LineByKind(h, raw);
    TakesWhatIsAllowed(kinds, n, h);
  }

  function ReadHeaderLine(h: Header, n: nat, raw: string): Result<Header, ParseError> {
    HeaderLine(h, raw)
  }

  lemma {:induction false} HeaderLinesFold(h: Header, n: nat, lines: seq<string>)
    ensures Fold(ReadHeaderLine, h, n, lines) == HeaderLines(h, lines)
    decreases |lines|
  {
    if lines != [] && HeaderLine(h, lines[0]).Ok? {
      HeaderLinesFold(HeaderLine(h, lines[0]).value, n + 1, lines[1..]);
    }
  }

  ghost function Reading(kinds: seq<Kind>): (Header, nat) -> bool {
    (h: Header, i: nat) => i <= |kinds| && ReadUpTo(kinds, i, h)
  }

  ghost function AllowedAt(kinds: seq<Kind>): nat -> bool {
    (i: nat) => i < |kinds| && Allowed(kinds, i)
  }

  /** The line that an error names. */
  function NamedLine(e: ParseError): Option<string> {
    match e
    case BadHeaderLine(line) => Some(line)
    case UnexpectedIndent(line) => Some(line)
    case BadArgumentLine(line) => Some(line)
    case FieldBeforeDash(line) => Some(line)
    case BadArgumentField(line) => Some(line)
    case _ => None
  }

  ghost function Blames(lines: seq<string>): (ParseError, nat) -> bool {
    (e: ParseError, i: nat) => i < |lines| && NamedLine(e) == Some(TrimEnd(lines[i]))
  }

  lemma TopLevelBlamed(h: Header, line: string)
    ensures TopLevelLine(h, line).Err? ==> NamedLine(TopLevelLine(h, line).error) == Some(line)
  {
  }

  lemma ArgumentBlamed(h: Header, line: string)
    ensures ArgumentLine(h, line).Err? ==> NamedLine(ArgumentLine(h, line).error) == Some(line)
  {
  }

  lemma LineBlamed(h: Header, raw: string, line: string)
    requires line == TrimEnd(raw) && HeaderLine(h, raw).Err?
    ensures NamedLine(HeaderLine(h, raw).error) == Some(line)
  {
    TopLevelBlamed(h, line);
    ArgumentBlamed(h, line);
  }

  lemma LineAdmitted(lines: seq<string>, kinds: seq<Kind>, h: Header, i: nat)
    requires i < |lines| && kinds == Kinds(lines)
    ensures Admits(ReadHeaderLine, lines, 0, Reading(kinds), AllowedAt(kinds), Blames(lines), h, i)
  {
    if ReadUpTo(kinds, i, h) {
      LineAllowed(kinds, i, h, lines[i]);
      if HeaderLine(h, lines[i]).Ok? {
        LineReads(kinds, i, h, lines[i]);
      } else {
        LineBlamed(h, lines[i], TrimEnd(lines[i]));
      }
    }
  }

  lemma StartReads(kinds: seq<Kind>)
    ensures Reading(kinds)(EMPTY_HEADER, 0)
  {
  }

  /** Line i is the first that may not stand where it stands. */
  ghost predicate FirstNotAllowed(kinds: seq<Kind>, i: nat) {
    i < |kinds| && !Allowed(kinds, i) && forall k :: 0 <= k < i ==> Allowed(kinds, k)
  }

  /** An error that names that line. */
  ghost predicate NamesFirstNotAllowed(kinds: seq<Kind>, lines: seq<string>, e: ParseError) {
    exists i :: 0 <= i < |lines| && FirstNotAllowed(kinds, i) && NamedLine(e) == Some(TrimEnd(lines[i]))
  }

  lemma LinesRead(lines: seq<string>, kinds: seq<Kind>)
    requires kinds == Kinds(lines)
    ensures match HeaderLines(EMPTY_HEADER, lines)
            case Ok(h) => Reading(kinds)(h, |lines|) && forall i :: 0 <= i < |lines| ==> AllowedAt(kinds)(i)
            case Err(e) => exists j :: 0 <= j < |lines| && FirstRefused(AllowedAt(kinds), 0, j) && Blames(lines)(e, j)
  {
    forall h: Header, i | 0 <= i < |lines|
      ensures Admits(ReadHeaderLine, lines, 0, Reading(kinds), AllowedAt(kinds), Blames(lines), h, i)
    {
      LineAdmitted(lines, kinds, h, i);
    }
    StartReads(kinds);
    FoldAdmits(ReadHeaderLine, lines, 0, Reading(kinds), AllowedAt(kinds), Blames(lines), EMPTY_HEADER, 0);
    HeaderLinesFold(EMPTY_HEADER, 0, lines);
    SplitAt(lines, 0);
  }

  lemma LinesReadOrRefused(lines: seq<string>, kinds: seq<Kind>)
    requires kinds == Kinds(lines)
    ensures var r := HeaderLines(EMPTY_HEADER, lines);
            (r.Ok? ==> Reading(kinds)(r.value, |kinds|) && AllAllowed(kinds)) &&
            (r.Err? ==> !AllAllowed(kinds) && NamesFirstNotAllowed(kinds, lines, r.error))
  {
    LinesRead(lines, kinds);
    assert forall i :: 0 <= i < |kinds| ==> (AllowedAt(kinds)(i) <==> Allowed(kinds, i));
    match HeaderLines(EMPTY_HEADER, lines)
    case Ok(h) =>
    case Err(e) =>
      var j :| 0 <= j < |lines| && FirstRefused(AllowedAt(kinds), 0, j) && Blames(lines)(e, j);
      assert FirstNotAllowed(kinds, j);
  }

  /** Some item of the header never gets a name, or gets an empty one last. */
  ghost predicate HasUnnamedItem(kinds: seq<Kind>) {
    exists t :: UnnamedItem(kinds, t, |kinds|)
  }

  lemma FlushedUnnamed(kinds: seq<Kind>, h: Header)
    requires ReadUpTo(kinds, |kinds|, h)
    ensures SomeUnnamed(h.Flush().arguments) <==> HasUnnamedItem(kinds)
  {
    var n := |kinds|;
    if h.current.Some? {
      SomeUnnamedLast(h.arguments, h.current.value);
      var t: nat :| OpenItem(kinds, t, n);
      if h.current.value.name == "" {
        assert UnnamedItem(kinds, t, n);
      }
    }
    if t: nat :| UnnamedItem(kinds, t, n) {
      assert OpenItem(kinds, t, n) || ClosedUnnamed(kinds, n);
    }
  }

  lemma {:induction false} ErrorsOfLines(h: Header, lines: seq<string>)
    ensures HeaderLines(h, lines) != Err(MissingName) && HeaderLines(h, lines) != Err(UnnamedArgument)
    decreases |lines|
  {
    if lines != [] && HeaderLine(h, lines[0]).Ok? {
      ErrorsOfLines(HeaderLine(h, lines[0]).value, lines[1..]);
    }
  }

  lemma PackageExactly(kinds: seq<Kind>, h: Header, body: string)
    requires ReadUpTo(kinds, |kinds|, h)
    ensures Package(h, body).Ok? <==> NamedAbove(kinds, |kinds|) && !HasUnnamedItem(kinds)
    ensures Package(h, body) == Err(MissingName) <==> !NamedAbove(kinds, |kinds|)
    ensures Package(h, body) == Err(UnnamedArgument) <==> NamedAbove(kinds, |kinds|) && HasUnnamedItem(kinds)
  {
    FlushedUnnamed(kinds, h);
  }

  /** A header is accepted exactly when each of its lines, looked at by itself, may stand where it
      stands, some top-level line is `name`, and every item's last name is nonempty. The two errors of
      a whole header are reported exactly when only those conditions fail. */
  lemma HeaderAcceptedExactly(text: string)
    requires SplitFrontmatter(text).Some?
    ensures var kinds := Kinds(Lines(SplitFrontmatter(text).value.0));
            var named, unnamed := NamedAbove(kinds, |kinds|), HasUnnamedItem(kinds);
            (FromText(text).Ok? <==> AllAllowed(kinds) && named && !unnamed) &&
            (FromText(text) == Err(MissingName) <==> AllAllowed(kinds) && !named) &&
            (FromText(text) == Err(UnnamedArgument) <==> AllAllowed(kinds) && named && unnamed)
  {
    var (front, body) := SplitFrontmatter(text).value;
    var kinds := Kinds(Lines(front));
    LinesReadOrRefused(Lines(front), kinds);
    ErrorsOfLines(EMPTY_HEADER, Lines(front));
    if HeaderLines(EMPTY_HEADER, Lines(front)).Ok? {
      PackageExactly(kinds, HeaderLines(EMPTY_HEADER, Lines(front)).value, body);
    }
  }

  /** Every rejected prompt names its first header line that may not stand where it stands, if there is
      one; then come a missing name and an unnamed argument. */
  lemma RejectedExactly(text: string)
    requires FromText(text).Err?
    ensures SplitFrontmatter(text).None? ==> FromText(text) == Err(NoFrontmatter)
    ensures SplitFrontmatter(text).Some? ==>
              var lines := Lines(SplitFrontmatter(text).value.0);
              var kinds := Kinds(lines);
              if !AllAllowed(kinds) then NamesFirstNotAllowed(kinds, lines, FromText(text).error)
              else FromText(text) == Err(if NamedAbove(kinds, |kinds|) then UnnamedArgument else MissingName)
  {
    if SplitFrontmatter(text).Some? {
      var front := SplitFrontmatter(text).value.0;
      HeaderAcceptedExactly(text);
      LinesReadOrRefused(Lines(front), Kinds(Lines(front)));
    }
  }

  /** A prompt file is accepted exactly when it is UTF-8 and has both fences and such a header. */
  lemma AcceptedExactly(bytes: Bytes)
    ensures FromMarkdown(bytes).Ok? <==>
            Utf8(bytes) && SplitFrontmatter(Decode(bytes)).Some? &&
            var kinds := Kinds(Lines(SplitFrontmatter(Decode(bytes)).value.0));
            AllAllowed(kinds) && NamedAbove(kinds, |kinds|) && !HasUnnamedItem(kinds)
  {
    if Utf8(bytes) && SplitFrontmatter(Decode(bytes)).Some? {
      HeaderAcceptedExactly(Decode(bytes));
    }
  }
}
