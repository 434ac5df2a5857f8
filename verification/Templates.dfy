/** Filling {{arg}} placeholders: a loop of text replacements, one argument at a time. */
module Templates {
  import opened Results
  import opened Seqs
  import opened Packages

  datatype FillError = MissingArg(name: string)

  type Provided = seq<(string, string)>

  // ---------- The sequential fill ----------

  function Placeholder(name: string): string {
    "{{" + name + "}}"
  }

  /** Leftmost, non-overlapping replacement of a nonempty pattern. */
  function Replace(s: string, pattern: string, value: string): string
    requires pattern != ""
  {
    if s == "" then ""
    else if pattern <= s then value + Replace(s[|pattern|..], pattern, value)
    else [s[0]] + Replace(s[1..], pattern, value)
  }

  /** The first provided value of that name. */
  function Lookup(provided: Provided, name: string): Option<string> {
    if provided == [] then None
    else if provided[0].0 == name then Some(provided[0].1)
    else Lookup(provided[1..], name)
  }

  function ValueOf(arg: PackageArg, provided: Provided): Option<string> {
    match Lookup(provided, arg.name)
    case Some(v) => Some(v)
    case None => arg.default
  }

  predicate IsMissing(arg: PackageArg, provided: Provided) {
    arg.required && ValueOf(arg, provided).None?
  }

  function ValueOrEmpty(arg: PackageArg, provided: Provided): string {
    match ValueOf(arg, provided)
    case Some(v) => v
    case None => ""
  }

  function Fill(body: string, args: seq<PackageArg>, provided: Provided): Result<string, FillError>
    decreases |args|
  {
    if args == [] then Ok(body)
    else if IsMissing(args[0], provided) then Err(MissingArg(args[0].name))
    else Fill(Replace(body, Placeholder(args[0].name), ValueOrEmpty(args[0], provided)), args[1..], provided)
  }

  method FindProvided(provided: Provided, name: string) returns (value: Option<string>)
    ensures value == Lookup(provided, name)
  {
    assert provided[0..] == provided;
    for i := 0 to |provided|
      invariant Lookup(provided[i..], name) == Lookup(provided, name)
    {
      FirstFrom(provided, i);
      if provided[i].0 == name {
        return Some(provided[i].1);
      }
    }
    return None;
  }

  method FillBody(body: string, args: seq<PackageArg>, provided: Provided) returns (r: Result<string, FillError>)
    ensures r == Fill(body, args, provided)
  {
    var out := body;
    assert args[0..] == args;
    for i := 0 to |args|
      invariant Fill(out, args[i..], provided) == Fill(body, args, provided)
    {
      FirstFrom(args, i);
      var arg := args[i];
      var value := FindProvided(provided, arg.name);
      if value.None? {
        value := arg.default;
      }
      match value {
        case Some(v) =>
          out := Replace(out, Placeholder(arg.name), v);
        case None =>
          if arg.required {
            return Err(MissingArg(arg.name));
          }
          out := Replace(out, Placeholder(arg.name), "");
      }
    }
    return Ok(out);
  }

  // ---------- When it fails ----------

  /** Filling fails exactly when some required argument has neither a value nor a default, and names
      the first such argument: for every body, argument list and value list. */
  lemma {:induction false} FailsExactlyWhenMissing(body: string, args: seq<PackageArg>, provided: Provided)
    ensures Fill(body, args, provided).Err? <==> exists i :: 0 <= i < |args| && IsMissing(args[i], provided)
    ensures Fill(body, args, provided).Err? ==>
              exists i :: 0 <= i < |args| && IsMissing(args[i], provided) &&
                          Fill(body, args, provided).error == MissingArg(args[i].name) &&
                          forall j :: 0 <= j < i ==> !IsMissing(args[j], provided)
    decreases |args|
  {
    if args != [] && !IsMissing(args[0], provided) {
      var next := Replace(body, Placeholder(args[0].name), ValueOrEmpty(args[0], provided));
      FailsExactlyWhenMissing(next, args[1..], provided);
      assert forall i :: 1 <= i < |args| ==> args[i] == args[1..][i - 1];
      if Fill(next, args[1..], provided).Err? {
        var i :| 0 <= i < |args[1..]| && IsMissing(args[1..][i], provided) &&
                 Fill(next, args[1..], provided).error == MissingArg(args[1..][i].name) &&
                 forall j :: 0 <= j < i ==> !IsMissing(args[1..][j], provided);
        assert IsMissing(args[i + 1], provided);
      }
    }
  }

  // ---------- The simultaneous substitution ----------

  /** A body read as literal text interleaved with placeholders. */
  datatype Segment = Literal(text: string) | Hole(name: string)

  function RenderSegment(seg: Segment): string {
    match seg
    case Literal(text) => text
    case Hole(name) => Placeholder(name)
  }

  function RenderBody(segs: seq<Segment>): string {
    if segs == [] then "" else RenderSegment(segs[0]) + RenderBody(segs[1..])
  }

  /** The first declaration of a name. */
  function Declared(args: seq<PackageArg>, name: string): Option<PackageArg> {
    if args == [] then None
    else if args[0].name == name then Some(args[0])
    else Declared(args[1..], name)
  }

  /** Every hole at once: declared names get their value, undeclared ones stay. */
  function FillSegment(seg: Segment, args: seq<PackageArg>, provided: Provided): Segment {
    match seg
    case Literal(_) => seg
    case Hole(name) =>
      match Declared(args, name)
      case Some(arg) => Literal(ValueOrEmpty(arg, provided))
      case None => seg
  }

  function FillAll(segs: seq<Segment>, args: seq<PackageArg>, provided: Provided): seq<Segment> {
    if segs == [] then [] else [FillSegment(segs[0], args, provided)] + FillAll(segs[1..], args, provided)
  }

  /** Neither occurs in the text nor starts at its end. */
  ghost predicate Free(text: string, pattern: string) {
    forall i :: 0 <= i < |text| ==> !(pattern <= text[i..]) && !(text[i..] <= pattern)
  }

  /** Text without an opening brace is free of every placeholder. */
  lemma NoBraceIsFree(text: string, name: string)
    requires '{' !in text
    ensures Free(text, Placeholder(name))
  {
    forall i | 0 <= i < |text|
      ensures !(Placeholder(name) <= text[i..]) && !(text[i..] <= Placeholder(name))
    {
      assert text[i..][0] == text[i] && Placeholder(name)[0] == '{';
    }
  }

  predicate BraceFree(name: string) {
    '{' !in name && '}' !in name
  }

  /** Holes have brace-free names, and no literal text takes part in that name's placeholder. */
  ghost predicate Fillable(segs: seq<Segment>, name: string) {
    forall i :: 0 <= i < |segs| ==>
      match segs[i]
      case Literal(text) => Free(text, Placeholder(name))
      case Hole(m) => BraceFree(m)
  }

  /** Every declared name can be filled in the body, and no value that gets there takes part in the
      placeholder of a later-declared argument. */
  ghost predicate Separate(segs: seq<Segment>, args: seq<PackageArg>, provided: Provided) {
    (forall i :: 0 <= i < |args| ==> BraceFree(args[i].name) && Fillable(segs, args[i].name)) &&
    (forall i, j :: 0 <= i < j < |args| && Hole(args[i].name) in segs ==>
      Free(ValueOrEmpty(args[i], provided), Placeholder(args[j].name)))
  }

  // ---------- One replacement touches exactly its holes ----------

  lemma PlaceholdersDoNotOverlap(m: string, n: string, rest: string)
    requires BraceFree(m) && BraceFree(n)
    ensures Placeholder(n) <= Placeholder(m) + rest <==> n == m
  {
    var p, q := Placeholder(n), Placeholder(m) + rest;
    assert forall i :: 0 <= i < |n| ==> p[2 + i] == n[i];
    assert forall i :: 0 <= i < |m| ==> q[2 + i] == m[i];
    assert p[2 + |n|] == '}' && q[2 + |m|] == '}';
    if p <= q {
      assert forall i :: 0 <= i < |p| ==> p[i] == q[i];
      assert |n| == |m| && forall i :: 0 <= i < |n| ==> n[i] == m[i];
    }
  }

  /** A pattern at the start of text and rest lies in the text or goes on from its end. */
  lemma PrefixOfConcat(text: string, rest: string, pattern: string)
    requires pattern <= text + rest
    ensures pattern <= text || text <= pattern
  {
    if |pattern| <= |text| {
      assert pattern == (text + rest)[..|pattern|] == text[..|pattern|];
    } else {
      assert text == (text + rest)[..|text|] == pattern[..|text|];
    }
  }

  lemma {:induction false} ReplaceSkipsFreeText(text: string, rest: string, pattern: string, v: string)
    requires pattern != "" && Free(text, pattern)
    ensures Replace(text + rest, pattern, v) == text + Replace(rest, pattern, v)
  {
    if text == "" {
      EmptyUnit(rest);
      EmptyUnit(Replace(rest, pattern, v));
    } else {
      FirstOfConcat(text, rest);
      assert text[0..] == text;
      if pattern <= text + rest {
        PrefixOfConcat(text, rest, pattern);
      }
      assert Free(text[1..], pattern) by {
        assert forall i :: 0 <= i < |text| - 1 ==> text[1..][i..] == text[i + 1..];
      }
      ReplaceSkipsFreeText(text[1..], rest, pattern, v);
      Reassociate([text[0]], text[1..], Replace(rest, pattern, v));
      assert [text[0]] + text[1..] == text;
    }
  }

  /** Past its first brace, a placeholder takes no part in any other. */
  lemma RestOfHoleIsFree(m: string, n: string)
    requires BraceFree(m)
    ensures Free("{" + m + "}}", Placeholder(n))
  {
    var text, p := "{" + m + "}}", Placeholder(n);
    assert p[0] == '{' && p[1] == '{';
    forall i | 0 <= i < |text|
      ensures !(p <= text[i..]) && !(text[i..] <= p)
    {
      var tail := text[i..];
      assert tail[0] == text[i] && (i == 0 ==> tail[1] == text[1] != '{');
      assert i > 0 ==> text[i] != '{';
    }
  }

  lemma ReplaceAtHole(m: string, rest: string, n: string, v: string)
    requires BraceFree(m) && BraceFree(n)
    ensures Replace(Placeholder(m) + rest, Placeholder(n), v) ==
            (if m == n then v else Placeholder(m)) + Replace(rest, Placeholder(n), v)
  {
    PlaceholdersDoNotOverlap(m, n, rest);
    var s, p := Placeholder(m) + rest, Placeholder(n);
    if m == n {
      assert s[|p|..] == rest;
    } else {
      var tail := "{" + m + "}}";
      assert Placeholder(m) == "{" + tail;
      Reassociate("{", tail, rest);
      assert s[1..] == tail + rest;
      RestOfHoleIsFree(m, n);
      ReplaceSkipsFreeText(tail, rest, p, v);
      Reassociate("{", tail, Replace(rest, p, v));
    }
  }

  /** Fill one argument's holes. */
  function FillOne(segs: seq<Segment>, n: string, v: string): seq<Segment> {
    if segs == [] then []
    else [if segs[0] == Hole(n) then Literal(v) else segs[0]] + FillOne(segs[1..], n, v)
  }

  lemma {:induction false} ReplaceIsFillOne(segs: seq<Segment>, n: string, v: string)
    requires Fillable(segs, n) && BraceFree(n)
    ensures Replace(RenderBody(segs), Placeholder(n), v) == RenderBody(FillOne(segs, n, v))
  {
    if segs != [] {
      var rest := RenderBody(segs[1..]);
      ReplaceIsFillOne(segs[1..], n, v);
      match segs[0]
      case Literal(text) => ReplaceSkipsFreeText(text, rest, Placeholder(n), v);
      case Hole(m) => ReplaceAtHole(m, rest, n, v);
    }
  }

  lemma {:induction false} FillOneAt(segs: seq<Segment>, n: string, v: string)
    ensures |FillOne(segs, n, v)| == |segs|
    ensures forall i :: 0 <= i < |segs| ==>
              FillOne(segs, n, v)[i] == if segs[i] == Hole(n) then Literal(v) else segs[i]
  {
    if segs != [] {
      FillOneAt(segs[1..], n, v);
    }
  }

  /** After the first argument the rest can still be filled. */
  lemma StillSeparate(segs: seq<Segment>, args: seq<PackageArg>, provided: Provided)
    requires args != [] && Separate(segs, args, provided)
    ensures Separate(FillOne(segs, args[0].name, ValueOrEmpty(args[0], provided)), args[1..], provided)
  {
    var n, v := args[0].name, ValueOrEmpty(args[0], provided);
    var filled, rest := FillOne(segs, n, v), args[1..];
    FillOneAt(segs, n, v);
    forall j | 0 <= j < |rest|
      ensures BraceFree(rest[j].name) && Fillable(filled, rest[j].name)
    {
      assert rest[j] == args[j + 1] && Fillable(segs, args[j + 1].name);
    }
    forall i, j | 0 <= i < j < |rest| && Hole(rest[i].name) in filled
      ensures Free(ValueOrEmpty(rest[i], provided), Placeholder(rest[j].name))
    {
      assert rest[i] == args[i + 1] && rest[j] == args[j + 1] && Hole(args[i + 1].name) in segs;
    }
  }

  lemma {:induction false} FillOneThenRest(segs: seq<Segment>, args: seq<PackageArg>, provided: Provided)
    requires args != []
    ensures FillAll(FillOne(segs, args[0].name, ValueOrEmpty(args[0], provided)), args[1..], provided) ==
            FillAll(segs, args, provided)
  {
    if segs != [] {
      FillOneThenRest(segs[1..], args, provided);
    }
  }

  lemma {:induction false} FillAllWithNoArgs(segs: seq<Segment>, provided: Provided)
    ensures FillAll(segs, [], provided) == segs
  {
    if segs != [] {
      FillAllWithNoArgs(segs[1..], provided);
    }
  }

  /** The loop of replacements equals one simultaneous substitution: the first provided value, else
      the default, else nothing; undeclared names untouched. Literal text and values may hold braces
      and placeholders, as long as they take no part in the placeholder of an argument that is still
      to be filled. */
  lemma {:induction false} FillIsSimultaneous(segs: seq<Segment>, args: seq<PackageArg>, provided: Provided)
    requires Separate(segs, args, provided)
    ensures Fill(RenderBody(segs), args, provided).Ok? ==>
              Fill(RenderBody(segs), args, provided).value == RenderBody(FillAll(segs, args, provided))
    decreases |args|
  {
    if args == [] {
      FillAllWithNoArgs(segs, provided);
    } else if !IsMissing(args[0], provided) {
      var n, v := args[0].name, ValueOrEmpty(args[0], provided);
      ReplaceIsFillOne(segs, n, v);
      FillOneThenRest(segs, args, provided);
      StillSeparate(segs, args, provided);
      FillIsSimultaneous(FillOne(segs, n, v), args[1..], provided);
    }
  }

  // ---------- Declaration order ----------

  ghost predicate DistinctNames(args: seq<PackageArg>) {
    forall i, j :: 0 <= i < j < |args| ==> args[i].name != args[j].name
  }

  lemma {:induction false} DeclaredIsTheOne(args: seq<PackageArg>, i: nat)
    requires i < |args| && DistinctNames(args)
    ensures Declared(args, args[i].name) == Some(args[i])
  {
    if i > 0 {
      DeclaredIsTheOne(args[1..], i - 1);
    }
  }

  lemma {:induction false} DeclaredIsListed(args: seq<PackageArg>, name: string)
    ensures match Declared(args, name)
            case Some(arg) => arg in args && arg.name == name
            case None => forall i :: 0 <= i < |args| ==> args[i].name != name
  {
    if args != [] && args[0].name != name {
      DeclaredIsListed(args[1..], name);
    }
  }

  lemma SameDeclarations(args: seq<PackageArg>, args': seq<PackageArg>, name: string)
    requires DistinctNames(args) && DistinctNames(args') && forall a :: a in args <==> a in args'
    ensures Declared(args, name) == Declared(args', name)
  {
    DeclaredIsListed(args, name);
    DeclaredIsListed(args', name);
    if Declared(args, name).Some? {
      var i :| 0 <= i < |args'| && args'[i] == Declared(args, name).value;
      DeclaredIsTheOne(args', i);
    }
  }

  lemma {:induction false} SameFill(segs: seq<Segment>, args: seq<PackageArg>, args': seq<PackageArg>,
                                   provided: Provided)
    requires forall name :: Declared(args, name) == Declared(args', name)
    ensures FillAll(segs, args, provided) == FillAll(segs, args', provided)
  {
    if segs != [] {
      SameFill(segs[1..], args, args', provided);
    }
  }

  /** Filling does not depend on the order in which the arguments are declared, as long as the first
      declaration of each name stays the first. */
  lemma OrderFree(segs: seq<Segment>, args: seq<PackageArg>, args': seq<PackageArg>, provided: Provided)
    requires Separate(segs, args, provided) && Separate(segs, args', provided)
    requires forall a :: a in args <==> a in args'
    requires forall name :: Declared(args, name) == Declared(args', name)
    ensures Fill(RenderBody(segs), args, provided).Ok? <==> Fill(RenderBody(segs), args', provided).Ok?
    ensures Fill(RenderBody(segs), args, provided).Ok? ==>
              Fill(RenderBody(segs), args, provided) == Fill(RenderBody(segs), args', provided)
  {
    FailsExactlyWhenMissing(RenderBody(segs), args, provided);
    FailsExactlyWhenMissing(RenderBody(segs), args', provided);
    assert forall i :: 0 <= i < |args| ==> args[i] in args';
    assert forall i :: 0 <= i < |args'| ==> args'[i] in args;
    FillIsSimultaneous(segs, args, provided);
    FillIsSimultaneous(segs, args', provided);
    SameFill(segs, args, args', provided);
  }

  /** Declarations with distinct names may come in any order. */
  lemma DistinctNamesInAnyOrder(segs: seq<Segment>, args: seq<PackageArg>, args': seq<PackageArg>, provided: Provided)
    requires Separate(segs, args, provided) && Separate(segs, args', provided)
    requires DistinctNames(args) && DistinctNames(args') && forall a :: a in args <==> a in args'
    ensures Fill(RenderBody(segs), args, provided).Ok? <==> Fill(RenderBody(segs), args', provided).Ok?
    ensures Fill(RenderBody(segs), args, provided).Ok? ==>
              Fill(RenderBody(segs), args, provided) == Fill(RenderBody(segs), args', provided)
  {
    forall name
      ensures Declared(args, name) == Declared(args', name)
    {
      SameDeclarations(args, args', name);
    }
    OrderFree(segs, args, args', provided);
  }

  /** With a placeholder inside a value the order shows: the value of a is scanned again for b when
      b is declared later, and not when it is declared earlier. */
  lemma OrderShowsThroughValues()
    ensures var a := PackageArg("a", "", true, None);
            var b := PackageArg("b", "", true, None);
            var provided := [("a", "{{b}}"), ("b", "x")];
            Fill("{{a}}", [a, b], provided) == Ok("x") && Fill("{{a}}", [b, a], provided) == Ok("{{b}}")
  {
    ReplaceAtHole("a", "", "a", "{{b}}");
    ReplaceAtHole("b", "", "b", "x");
    ReplaceAtHole("a", "", "b", "x");
    var a, b := PackageArg("a", "", true, None), PackageArg("b", "", true, None);
    var provided: Provided := [("a", "{{b}}"), ("b", "x")];
    assert Placeholder("a") == "{{a}}" == Placeholder("a") + "" && Placeholder("b") == "{{b}}" == Placeholder("b") + "";
    assert provided[1..][0] == ("b", "x");
    assert Lookup(provided, "b") == Lookup(provided[1..], "b") == Some("x");
    assert [a, b][1..] == [b] && [b, a][1..] == [a] && [a][1..] == [] && [b][1..] == [];
    assert Replace("{{a}}", Placeholder("a"), "{{b}}") == "{{b}}";
    assert Replace("{{b}}", Placeholder("b"), "x") == "x";
    assert Replace("{{a}}", Placeholder("b"), "x") == "{{a}}";
    assert ValueOrEmpty(a, provided) == "{{b}}" && ValueOrEmpty(b, provided) == "x";
    assert Fill("{{a}}", [a, b], provided) == Fill("{{b}}", [b], provided) == Fill("x", [], provided);
    assert Fill("{{a}}", [b, a], provided) == Fill("{{a}}", [a], provided) == Fill("{{b}}", [], provided);
  }
}
