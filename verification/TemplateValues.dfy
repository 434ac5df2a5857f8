/** Which value fills a placeholder, said of the pairs that were provided and of the declaration. */
module TemplateValues {
  import opened Results
  import opened Seqs
  import opened Packages
  import opened Templates

  predicate NoPair(provided: Provided, name: string) {
    forall i :: 0 <= i < |provided| ==> provided[i].0 != name
  }

  /** The first pair of that name provides that value. */
  predicate FirstPair(provided: Provided, i: nat, name: string, value: string) {
    i < |provided| && provided[i] == (name, value) && NoPair(provided[..i], name)
  }

  predicate FirstDeclaration(args: seq<PackageArg>, i: nat, arg: PackageArg) {
    i < |args| && args[i] == arg && forall j :: 0 <= j < i ==> args[j].name != arg.name
  }

  // ---------- The value ----------

  lemma {:induction false} LookupFindsFirst(provided: Provided, i: nat, name: string, value: string)
    requires FirstPair(provided, i, name, value)
    ensures Lookup(provided, name) == Some(value)
  {
    if i > 0 {
      assert provided[..i][0] == provided[0];
      assert provided[1..][..i - 1] == provided[..i][1..];
      LookupFindsFirst(provided[1..], i - 1, name, value);
    }
  }

  lemma {:induction false} LookupFindsNone(provided: Provided, name: string)
    ensures Lookup(provided, name).None? <==> NoPair(provided, name)
  {
    if provided != [] {
      LookupFindsNone(provided[1..], name);
      assert forall i :: 1 <= i < |provided| ==> provided[i] == provided[1..][i - 1];
    }
  }

  lemma {:induction false} DeclaredFindsFirst(args: seq<PackageArg>, i: nat, arg: PackageArg)
    requires FirstDeclaration(args, i, arg)
    ensures Declared(args, arg.name) == Some(arg)
  {
    if i > 0 {
      DeclaredFindsFirst(args[1..], i - 1, arg);
    }
  }

  lemma {:induction false} FillAllAt(segs: seq<Segment>, args: seq<PackageArg>, provided: Provided)
    ensures |FillAll(segs, args, provided)| == |segs|
    ensures forall i :: 0 <= i < |segs| ==> FillAll(segs, args, provided)[i] == FillSegment(segs[i], args, provided)
  {
    if segs != [] {
      FillAllAt(segs[1..], args, provided);
    }
  }

  /** A provided value fills every hole of its name, whatever the default; the first of its name, if
      there are several. */
  lemma ProvidedValueFills(segs: seq<Segment>, k: nat, args: seq<PackageArg>, j: nat, arg: PackageArg,
                           provided: Provided, i: nat, value: string)
    requires k < |segs| && segs[k] == Hole(arg.name)
    requires FirstDeclaration(args, j, arg) && FirstPair(provided, i, arg.name, value)
    ensures |FillAll(segs, args, provided)| == |segs| && FillAll(segs, args, provided)[k] == Literal(value)
  {
    DeclaredFindsFirst(args, j, arg);
    LookupFindsFirst(provided, i, arg.name, value);
    FillAllAt(segs, args, provided);
  }

  /** Without one, the default does, or nothing. */
  lemma DefaultFills(segs: seq<Segment>, k: nat, args: seq<PackageArg>, j: nat, arg: PackageArg, provided: Provided)
    requires k < |segs| && segs[k] == Hole(arg.name)
    requires FirstDeclaration(args, j, arg) && NoPair(provided, arg.name)
    ensures |FillAll(segs, args, provided)| == |segs|
    ensures FillAll(segs, args, provided)[k] == Literal(if arg.default.Some? then arg.default.value else "")
  {
    DeclaredFindsFirst(args, j, arg);
    LookupFindsNone(provided, arg.name);
    FillAllAt(segs, args, provided);
  }

  /** Anything else in the body stays. */
  lemma TheRestStays(segs: seq<Segment>, k: nat, args: seq<PackageArg>, provided: Provided)
    requires k < |segs| && (segs[k].Literal? || forall j :: 0 <= j < |args| ==> args[j].name != segs[k].name)
    ensures |FillAll(segs, args, provided)| == |segs| && FillAll(segs, args, provided)[k] == segs[k]
  {
    FillAllAt(segs, args, provided);
    if segs[k].Hole? {
      DeclaredIsListed(args, segs[k].name);
    }
  }

  // ---------- Missing arguments ----------

  predicate Unfilled(arg: PackageArg, provided: Provided) {
    arg.required && arg.default.None? && NoPair(provided, arg.name)
  }

  lemma MissingIsUnfilled(arg: PackageArg, provided: Provided)
    ensures IsMissing(arg, provided) <==> Unfilled(arg, provided)
  {
    LookupFindsNone(provided, arg.name);
  }

  /** Filling fails exactly when some required argument has no pair of its name and no default, and
      then names the first such argument. */
  lemma FailsExactlyWhenUnfilled(body: string, args: seq<PackageArg>, provided: Provided)
    ensures Fill(body, args, provided).Err? <==> exists i :: 0 <= i < |args| && Unfilled(args[i], provided)
    ensures Fill(body, args, provided).Err? ==>
              exists i :: 0 <= i < |args| && Unfilled(args[i], provided) &&
                          Fill(body, args, provided) == Err(MissingArg(args[i].name)) &&
                          forall j :: 0 <= j < i ==> !Unfilled(args[j], provided)
  {
    FailsExactlyWhenMissing(body, args, provided);
    forall i | 0 <= i < |args|
      ensures IsMissing(args[i], provided) <==> Unfilled(args[i], provided)
    {
      MissingIsUnfilled(args[i], provided);
    }
  }

  // ---------- One placeholder, as it is written ----------

  /** The body of one placeholder between plain text. */
  function OnePlaceholder(before: string, name: string, after: string): string {
    before + ("{{" + name + "}}" + after)
  }

  lemma OneReplaced(before: string, name: string, after: string, value: string)
    requires '{' !in before && '{' !in after && BraceFree(name)
    ensures Replace(OnePlaceholder(before, name, after), Placeholder(name), value) == before + (value + after)
  {
    var p := Placeholder(name);
    NoBraceIsFree(before, name);
    NoBraceIsFree(after, name);
    ReplaceSkipsFreeText(before, p + after, p, value);
    ReplaceAtHole(name, after, name, value);
    ReplaceSkipsFreeText(after, "", p, value);
    EmptyUnit(after);
  }

  lemma OneFilled(before: string, arg: PackageArg, after: string, provided: Provided, value: string)
    requires '{' !in before && '{' !in after && BraceFree(arg.name)
    requires !IsMissing(arg, provided) && ValueOrEmpty(arg, provided) == value
    ensures Fill(OnePlaceholder(before, arg.name, after), [arg], provided) == Ok(before + (value + after))
  {
    OneReplaced(before, arg.name, after, value);
    assert [arg][1..] == [];
  }

  /** The text around a placeholder stays, and its value takes its place: the provided one. */
  lemma ProvidedPlaceholder(before: string, arg: PackageArg, after: string, provided: Provided, i: nat, value: string)
    requires '{' !in before && '{' !in after && BraceFree(arg.name) && FirstPair(provided, i, arg.name, value)
    ensures Fill(OnePlaceholder(before, arg.name, after), [arg], provided) == Ok(before + (value + after))
  {
    LookupFindsFirst(provided, i, arg.name, value);
    OneFilled(before, arg, after, provided, value);
  }

  /** Else the default, else nothing, unless it is required. */
  lemma DefaultPlaceholder(before: string, arg: PackageArg, after: string, provided: Provided)
    requires '{' !in before && '{' !in after && BraceFree(arg.name) && NoPair(provided, arg.name)
    ensures Fill(OnePlaceholder(before, arg.name, after), [arg], provided) ==
            match arg.default
            case Some(value) => Ok(before + (value + after))
            case None => if arg.required then Err(MissingArg(arg.name)) else Ok(before + after)
  {
    LookupFindsNone(provided, arg.name);
    if !IsMissing(arg, provided) {
      OneFilled(before, arg, after, provided, ValueOrEmpty(arg, provided));
      EmptyUnit(after);
    }
  }
}
