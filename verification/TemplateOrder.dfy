/** Exactly when filling a template one argument at a time is simultaneous, and exactly when it does
    not depend on the order of the declarations. */
module TemplateOrder {
  import opened Results
  import opened Seqs
  import opened Packages
  import opened Templates

  // ---------- The condition ----------

  /** Filling b leaves the value of a alone, or puts b's own placeholder back. */
  ghost predicate Harmless(a: PackageArg, b: PackageArg, provided: Provided) {
    Free(ValueOrEmpty(a, provided), Placeholder(b.name)) || ValueOrEmpty(b, provided) == Placeholder(b.name)
  }

  ghost predicate EarlierHarmless(args: seq<PackageArg>, provided: Provided) {
    forall i, j :: 0 <= i < j < |args| ==> Harmless(args[i], args[j], provided)
  }

  ghost predicate AllHarmless(args: seq<PackageArg>, provided: Provided) {
    forall a, b :: a in args && b in args && a != b ==> Harmless(a, b, provided)
  }

  /** Distinct brace-free names, and nothing missing. */
  ghost predicate Complete(args: seq<PackageArg>, provided: Provided) {
    DistinctNames(args) && forall a :: a in args ==> BraceFree(a.name) && !IsMissing(a, provided)
  }

  ghost predicate FillableByAll(segs: seq<Segment>, args: seq<PackageArg>) {
    forall a :: a in args ==> Fillable(segs, a.name)
  }

  // ---------- One replacement ----------

  lemma {:induction false} ReplaceByItself(s: string, pattern: string)
    requires pattern != ""
    ensures Replace(s, pattern, pattern) == s
    decreases |s|
  {
    if s != "" {
      if pattern <= s {
        ReplaceByItself(s[|pattern|..], pattern);
        SplitPrefix(s, pattern);
      } else {
        ReplaceByItself(s[1..], pattern);
        SplitPrefix(s, [s[0]]);
      }
    }
  }

  lemma {:induction false} ReplaceLength(s: string, pattern: string, v: string)
    requires pattern != ""
    ensures |v| >= |pattern| ==> |Replace(s, pattern, v)| >= |s|
    ensures |v| <= |pattern| ==> |Replace(s, pattern, v)| <= |s|
    decreases |s|
  {
    if s != "" {
      ReplaceLength(if pattern <= s then s[|pattern|..] else s[1..], pattern, v);
    }
  }

  /** Replacing an occurrence by anything else changes the text. */
  lemma {:induction false} ReplaceChanges(s: string, k: nat, pattern: string, v: string)
    requires pattern != "" && v != pattern && k <= |s| && pattern <= s[k..]
    ensures Replace(s, pattern, v) != s
    decreases |s|
  {
    if pattern <= s {
      var rest := s[|pattern|..];
      ReplaceLength(rest, pattern, v);
      SplitPrefix(s, pattern);
      if |v| == |pattern| {
        DifferentFronts(v, Replace(rest, pattern, v), pattern, rest);
      }
    } else {
      assert k > 0;
      assert s[1..][k - 1..] == s[k..];
      ReplaceChanges(s[1..], k - 1, pattern, v);
      assert ([s[0]] + Replace(s[1..], pattern, v))[1..] == Replace(s[1..], pattern, v);
    }
  }

  lemma CompletedAtEnd(text: string, k: nat, pattern: string, rest: string)
    requires k <= |text| && text[k..] <= pattern && rest == pattern[|text| - k..]
    ensures pattern == (text + rest)[k..]
  {
    CutWithin(text, rest, k);
    SplitPrefix(pattern, text[k..]);
  }

  lemma RestIsFree(m: string, j: nat, rest: string, n: string)
    requires BraceFree(m) && 0 < j <= |Placeholder(m)| && rest == Placeholder(m)[j..]
    ensures Free(rest, Placeholder(n))
  {
    assert Placeholder(m) == "{" + ("{" + m + "}}");
    RestOfHoleIsFree(m, n);
    FreeSuffix("{" + m + "}}", j - 1, rest, Placeholder(n));
  }

  /** What completes a placeholder that a text takes part in: nothing, or the rest of it. */
  lemma Completing(text: string, m: string) returns (rest: string, k: nat)
    requires BraceFree(m) && !Free(text, Placeholder(m))
    ensures k <= |text| && Placeholder(m) <= (text + rest)[k..]
    ensures forall n :: Free(rest, Placeholder(n))
  {
    var p := Placeholder(m);
    k :| 0 <= k < |text| && (p <= text[k..] || text[k..] <= p);
    if p <= text[k..] {
      rest := "";
      EmptyUnit(text);
    } else {
      rest := p[|text| - k..];
      CompletedAtEnd(text, k, p, rest);
      forall n
        ensures Free(rest, Placeholder(n))
      {
        RestIsFree(m, |text| - k, rest, n);
      }
    }
  }

  lemma FreeSuffix(text: string, k: nat, suffix: string, pattern: string)
    requires Free(text, pattern) && k <= |text| && suffix == text[k..]
    ensures Free(suffix, pattern)
  {
    forall i | 0 <= i < |suffix|
      ensures !(pattern <= suffix[i..]) && !(suffix[i..] <= pattern)
    {
      assert suffix[i..] == text[k + i..];
    }
  }

  // ---------- One argument more ----------

  lemma {:induction false} FillConcat(body: string, a: seq<PackageArg>, b: seq<PackageArg>, provided: Provided)
    ensures Fill(body, a + b, provided) == match Fill(body, a, provided)
                                           case Ok(text) => Fill(text, b, provided)
                                           case Err(e) => Err(e)
    decreases |a|
  {
    if a == [] {
      EmptyUnit(b);
    } else {
      FirstOfConcat(a, b);
      if !IsMissing(a[0], provided) {
        FillConcat(Replace(body, Placeholder(a[0].name), ValueOrEmpty(a[0], provided)), a[1..], b, provided);
      }
    }
  }

  lemma FillLast(body: string, args: seq<PackageArg>, a: PackageArg, provided: Provided, text: string)
    requires Fill(body, args, provided) == Ok(text) && !IsMissing(a, provided)
    ensures Fill(body, args + [a], provided) == Ok(Replace(text, Placeholder(a.name), ValueOrEmpty(a, provided)))
  {
    FillConcat(body, args, [a], provided);
    assert [a][1..] == [];
  }

  lemma {:induction false} DeclaredLast(args: seq<PackageArg>, a: PackageArg, name: string)
    ensures Declared(args + [a], name) ==
            if Declared(args, name).Some? then Declared(args, name) else if a.name == name then Some(a) else None
  {
    if args == [] {
      assert [] + [a] == [a] && [a][1..] == [];
    } else {
      FirstOfConcat(args, [a]);
      DeclaredLast(args[1..], a, name);
    }
  }

  lemma {:induction false} FillAllLast(segs: seq<Segment>, args: seq<PackageArg>, a: PackageArg, provided: Provided)
    requires Declared(args, a.name).None?
    ensures FillAll(segs, args + [a], provided) ==
            FillOne(FillAll(segs, args, provided), a.name, ValueOrEmpty(a, provided))
  {
    if segs != [] {
      FillAllLast(segs[1..], args, a, provided);
      if segs[0].Hole? {
        DeclaredLast(args, a, segs[0].name);
      }
    }
  }

  lemma {:induction false} FillAllFillable(segs: seq<Segment>, args: seq<PackageArg>, provided: Provided, m: string)
    requires Fillable(segs, m) && forall a :: a in args ==> Free(ValueOrEmpty(a, provided), Placeholder(m))
    ensures Fillable(FillAll(segs, args, provided), m)
  {
    if segs != [] {
      var rest := FillAll(segs[1..], args, provided);
      FillAllFillable(segs[1..], args, provided, m);
      if segs[0].Hole? {
        DeclaredIsListed(args, segs[0].name);
      }
      FillableFirst(FillSegment(segs[0], args, provided), rest, m);
    }
  }

  lemma FillableFirst(seg: Segment, rest: seq<Segment>, m: string)
    requires Fillable([seg], m) && Fillable(rest, m)
    ensures Fillable([seg] + rest, m)
  {
    assert [seg][0] == seg;
  }

  lemma {:induction false} FillOneByItself(segs: seq<Segment>, n: string)
    ensures RenderBody(FillOne(segs, n, Placeholder(n))) == RenderBody(segs)
  {
    if segs != [] {
      FillOneByItself(segs[1..], n);
    }
  }

  // ---------- Exactly when filling is simultaneous ----------

  /** Filling these arguments in this body is one simultaneous substitution. */
  ghost predicate SimultaneousIn(segs: seq<Segment>, args: seq<PackageArg>, provided: Provided) {
    Fill(RenderBody(segs), args, provided) == Ok(RenderBody(FillAll(segs, args, provided)))
  }

  /** And so is every step of the loop, in every body that all the names can be filled in. */
  ghost predicate Simultaneous(args: seq<PackageArg>, provided: Provided) {
    forall segs, n: nat :: n <= |args| && FillableByAll(segs, args) ==> SimultaneousIn(segs, args[..n], provided)
  }

  lemma OneMoreStep(segs: seq<Segment>, args: seq<PackageArg>, a: PackageArg, provided: Provided)
    requires SimultaneousIn(segs, args, provided) && Fillable(segs, a.name)
    requires BraceFree(a.name) && !IsMissing(a, provided) && Declared(args, a.name).None?
    requires forall b :: b in args ==> Harmless(b, a, provided)
    ensures SimultaneousIn(segs, args + [a], provided)
  {
    var n, v, filled := a.name, ValueOrEmpty(a, provided), FillAll(segs, args, provided);
    FillLast(RenderBody(segs), args, a, provided, RenderBody(filled));
    FillAllLast(segs, args, a, provided);
    if v == Placeholder(n) {
      ReplaceByItself(RenderBody(filled), Placeholder(n));
      FillOneByItself(filled, n);
    } else {
      FillAllFillable(segs, args, provided, n);
      ReplaceIsFillOne(filled, n, v);
    }
  }

  lemma NotDeclaredBefore(args: seq<PackageArg>, n: nat)
    requires n < |args| && DistinctNames(args)
    ensures Declared(args[..n], args[n].name).None?
  {
    DeclaredIsListed(args[..n], args[n].name);
  }

  lemma {:induction false} HarmlessIsSimultaneous(segs: seq<Segment>, args: seq<PackageArg>, provided: Provided, n: nat)
    requires n <= |args| && Complete(args, provided) && EarlierHarmless(args, provided) && FillableByAll(segs, args)
    ensures SimultaneousIn(segs, args[..n], provided)
    decreases n
  {
    if n == 0 {
      FillAllWithNoArgs(segs, provided);
    } else {
      HarmlessIsSimultaneous(segs, args, provided, n - 1);
      NotDeclaredBefore(args, n - 1);
      TakeOneMore(args, n - 1);
      OneMoreStep(segs, args[..n - 1], args[n - 1], provided);
    }
  }

  /** A hole, then text that completes the placeholder of another argument in its value. */
  lemma Witness(a: PackageArg, b: PackageArg, provided: Provided) returns (rest: string)
    requires BraceFree(b.name) && !Harmless(a, b, provided)
    ensures forall n :: Free(rest, Placeholder(n))
    ensures var text := ValueOrEmpty(a, provided) + rest;
            Replace(text, Placeholder(b.name), ValueOrEmpty(b, provided)) != text
  {
    var k;
    rest, k := Completing(ValueOrEmpty(a, provided), b.name);
    ReplaceChanges(ValueOrEmpty(a, provided) + rest, k, Placeholder(b.name), ValueOrEmpty(b, provided));
  }

  function WitnessBody(a: PackageArg, rest: string): seq<Segment> {
    [Hole(a.name), Literal(rest)]
  }

  lemma WitnessIsFillable(a: PackageArg, rest: string, args: seq<PackageArg>)
    requires BraceFree(a.name) && forall n :: Free(rest, Placeholder(n))
    ensures FillableByAll(WitnessBody(a, rest), args)
  {
  }

  lemma WitnessFilled(a: PackageArg, rest: string, args: seq<PackageArg>, provided: Provided)
    requires Declared(args, a.name) == Some(a)
    ensures RenderBody(FillAll(WitnessBody(a, rest), args, provided)) == ValueOrEmpty(a, provided) + rest
  {
    var value, last := Literal(ValueOrEmpty(a, provided)), Literal(rest);
    assert [last][1..] == [] && FillAll([], args, provided) == [];
    assert FillAll([last], args, provided) == [last];
    assert WitnessBody(a, rest)[1..] == [last] && [value, last][1..] == [last];
    assert FillAll(WitnessBody(a, rest), args, provided) == [value] + [last] == [value, last];
    EmptyUnit(rest);
    assert RenderBody([last]) == rest;
  }

  lemma DeclaredInPrefix(args: seq<PackageArg>, n: nat, i: nat)
    requires i < n <= |args| && DistinctNames(args)
    ensures Declared(args[..n], args[i].name) == Some(args[i])
  {
    DeclaredIsTheOne(args[..n], i);
  }

  lemma SimultaneousIsHarmless(args: seq<PackageArg>, provided: Provided, i: nat, j: nat)
    requires i < j < |args| && Complete(args, provided) && Simultaneous(args, provided)
    ensures Harmless(args[i], args[j], provided)
  {
    var a, b := args[i], args[j];
    if !Harmless(a, b, provided) {
      var rest := Witness(a, b, provided);
      var segs, text := WitnessBody(a, rest), ValueOrEmpty(a, provided) + rest;
      WitnessIsFillable(a, rest, args);
      DeclaredInPrefix(args, j, i);
      DeclaredInPrefix(args, j + 1, i);
      WitnessFilled(a, rest, args[..j], provided);
      WitnessFilled(a, rest, args[..j + 1], provided);
      assert SimultaneousIn(segs, args[..j], provided) && SimultaneousIn(segs, args[..j + 1], provided);
      TakeOneMore(args, j);
      FillLast(RenderBody(segs), args[..j], b, provided, text);
    }
  }

  /** Every step of the loop is a simultaneous substitution in every body, exactly when filling an
      argument leaves the values of the earlier ones alone. */
  lemma SimultaneousExactlyWhen(args: seq<PackageArg>, provided: Provided)
    requires Complete(args, provided)
    ensures Simultaneous(args, provided) <==> EarlierHarmless(args, provided)
  {
    if Simultaneous(args, provided) {
      forall i, j | 0 <= i < j < |args|
        ensures Harmless(args[i], args[j], provided)
      {
        SimultaneousIsHarmless(args, provided, i, j);
      }
    }
    if EarlierHarmless(args, provided) {
      forall segs, n: nat | n <= |args| && FillableByAll(segs, args)
        ensures SimultaneousIn(segs, args[..n], provided)
      {
        HarmlessIsSimultaneous(segs, args, provided, n);
      }
    }
  }

  // ---------- Exactly when the order of the declarations is irrelevant ----------

  /** The same declarations in some order. */
  ghost predicate Reordered(args: seq<PackageArg>, args': seq<PackageArg>) {
    DistinctNames(args') && forall a :: a in args <==> a in args'
  }

  ghost predicate OrderIrrelevant(args: seq<PackageArg>, provided: Provided) {
    forall segs, args' :: FillableByAll(segs, args) && Reordered(args, args') ==>
      Fill(RenderBody(segs), args', provided) == Fill(RenderBody(segs), args, provided)
  }

  lemma NamesTellApart(args: seq<PackageArg>, a: PackageArg, b: PackageArg)
    requires DistinctNames(args) && a in args && b in args && a != b
    ensures a.name != b.name
  {
    var i :| 0 <= i < |args| && args[i] == a;
    var j :| 0 <= j < |args| && args[j] == b;
  }

  lemma HarmlessInOrder(segs: seq<Segment>, args: seq<PackageArg>, provided: Provided)
    requires Complete(args, provided) && AllHarmless(args, provided) && FillableByAll(segs, args)
    ensures SimultaneousIn(segs, args, provided)
  {
    forall i, j | 0 <= i < j < |args|
      ensures Harmless(args[i], args[j], provided)
    {
      assert args[i] in args && args[j] in args && args[i].name != args[j].name;
    }
    HarmlessIsSimultaneous(segs, args, provided, |args|);
    TakeAll(args);
  }

  lemma HarmlessInAnyOrder(segs: seq<Segment>, args: seq<PackageArg>, args': seq<PackageArg>, provided: Provided)
    requires Complete(args, provided) && AllHarmless(args, provided)
    requires FillableByAll(segs, args) && Reordered(args, args')
    ensures Fill(RenderBody(segs), args', provided) == Fill(RenderBody(segs), args, provided)
  {
    HarmlessInOrder(segs, args, provided);
    HarmlessInOrder(segs, args', provided);
    forall name
      ensures Declared(args, name) == Declared(args', name)
    {
      SameDeclarations(args, args', name);
    }
    SameFill(segs, args, args', provided);
  }

  function Without(args: seq<PackageArg>, a: PackageArg): seq<PackageArg> {
    if args == [] then [] else (if args[0] == a then [] else [args[0]]) + Without(args[1..], a)
  }

  lemma {:induction false} WithoutMembers(args: seq<PackageArg>, a: PackageArg)
    ensures forall b :: b in Without(args, a) <==> b in args && b != a
  {
    if args != [] {
      WithoutMembers(args[1..], a);
      SplitPrefix(args, [args[0]]);
    }
  }

  lemma {:induction false} WithoutIsDistinct(args: seq<PackageArg>, a: PackageArg)
    requires DistinctNames(args)
    ensures DistinctNames(Without(args, a))
  {
    if args != [] {
      var rest := Without(args[1..], a);
      WithoutIsDistinct(args[1..], a);
      WithoutMembers(args[1..], a);
      if args[0] != a {
        forall i | 0 <= i < |rest|
          ensures rest[i].name != args[0].name
        {
          assert rest[i] in args[1..];
        }
        assert Without(args, a) == [args[0]] + rest;
      }
    }
  }

  lemma DistinctLast(args: seq<PackageArg>, a: PackageArg)
    requires DistinctNames(args) && forall b :: b in args ==> b.name != a.name
    ensures DistinctNames(args + [a])
  {
  }

  /** All the others, then a, then b. */
  function EndingIn(args: seq<PackageArg>, a: PackageArg, b: PackageArg): seq<PackageArg> {
    Without(Without(args, a), b) + [a] + [b]
  }

  lemma EndingInReorders(args: seq<PackageArg>, a: PackageArg, b: PackageArg)
    requires DistinctNames(args) && a in args && b in args && a != b
    ensures Reordered(args, EndingIn(args, a, b))
  {
    var others := Without(Without(args, a), b);
    WithoutMembers(args, a);
    WithoutMembers(Without(args, a), b);
    WithoutIsDistinct(args, a);
    WithoutIsDistinct(Without(args, a), b);
    forall c | c in others
      ensures c.name != a.name && c.name != b.name
    {
      NamesTellApart(args, c, a);
      NamesTellApart(args, c, b);
    }
    NamesTellApart(args, a, b);
    DistinctLast(others, a);
    DistinctLast(others + [a], b);
  }

  /** Arguments whose holes are not in the body leave it alone. */
  lemma {:induction false} FillUntouched(segs: seq<Segment>, args: seq<PackageArg>, provided: Provided)
    requires FillableByAll(segs, args)
    requires forall a :: a in args ==> BraceFree(a.name) && !IsMissing(a, provided) && Hole(a.name) !in segs
    ensures Fill(RenderBody(segs), args, provided) == Ok(RenderBody(segs))
    decreases |args|
  {
    if args != [] {
      var n, v := args[0].name, ValueOrEmpty(args[0], provided);
      assert args[0] in args;
      ReplaceIsFillOne(segs, n, v);
      FillOneAt(segs, n, v);
      assert FillOne(segs, n, v) == segs;
      FillUntouched(segs, args[1..], provided);
    }
  }

  /** The body of a's witness, with a filled after arguments that do not occur in it. */
  lemma WitnessAfter(a: PackageArg, rest: string, before: seq<PackageArg>, provided: Provided)
    requires BraceFree(a.name) && !IsMissing(a, provided) && forall n :: Free(rest, Placeholder(n))
    requires forall b :: b in before ==> BraceFree(b.name) && !IsMissing(b, provided) && b.name != a.name
    ensures Fill(RenderBody(WitnessBody(a, rest)), before + [a], provided) == Ok(ValueOrEmpty(a, provided) + rest)
  {
    var segs := WitnessBody(a, rest);
    WitnessIsFillable(a, rest, before + [a]);
    FillUntouched(segs, before, provided);
    FillLast(RenderBody(segs), before, a, provided, RenderBody(segs));
    ReplaceIsFillOne(segs, a.name, ValueOrEmpty(a, provided));
    WitnessFilledOnce(a, rest, ValueOrEmpty(a, provided));
  }

  lemma WitnessFilledOnce(a: PackageArg, rest: string, v: string)
    ensures RenderBody(FillOne(WitnessBody(a, rest), a.name, v)) == v + rest
  {
    var value, last, filled := Literal(v), Literal(rest), FillOne(WitnessBody(a, rest), a.name, v);
    FillOneAt(WitnessBody(a, rest), a.name, v);
    assert filled[0] == value && filled[1..] == [last] && [last][1..] == [];
    EmptyUnit(rest);
    assert RenderBody([last]) == rest;
  }

  /** In one order the value of a is scanned for b, in the other it is not. */
  lemma BothOrders(args: seq<PackageArg>, provided: Provided, a: PackageArg, b: PackageArg, rest: string)
    requires Complete(args, provided) && a in args && b in args && a != b && forall n :: Free(rest, Placeholder(n))
    ensures var body, text := RenderBody(WitnessBody(a, rest)), ValueOrEmpty(a, provided) + rest;
            Fill(body, EndingIn(args, b, a), provided) == Ok(text) &&
            Fill(body, EndingIn(args, a, b), provided) ==
            Ok(Replace(text, Placeholder(b.name), ValueOrEmpty(b, provided)))
  {
    var others, others' := Without(Without(args, a), b), Without(Without(args, b), a);
    WithoutMembers(args, a);
    WithoutMembers(args, b);
    WithoutMembers(Without(args, a), b);
    WithoutMembers(Without(args, b), a);
    forall c | c in others || c in others' + [b]
      ensures c in args && c.name != a.name
    {
      NamesTellApart(args, c, a);
    }
    WitnessAfter(a, rest, others, provided);
    FillLast(RenderBody(WitnessBody(a, rest)), others + [a], b, provided, ValueOrEmpty(a, provided) + rest);
    WitnessAfter(a, rest, others' + [b], provided);
  }

  lemma SameInBothOrders(args: seq<PackageArg>, provided: Provided, a: PackageArg, b: PackageArg, segs: seq<Segment>)
    requires Complete(args, provided) && OrderIrrelevant(args, provided) && FillableByAll(segs, args)
    requires a in args && b in args && a != b
    ensures Fill(RenderBody(segs), EndingIn(args, a, b), provided) ==
            Fill(RenderBody(segs), EndingIn(args, b, a), provided)
  {
    EndingInReorders(args, a, b);
    EndingInReorders(args, b, a);
    assert Fill(RenderBody(segs), EndingIn(args, a, b), provided) == Fill(RenderBody(segs), args, provided);
  }

  lemma OrderIrrelevantIsHarmless(args: seq<PackageArg>, provided: Provided, a: PackageArg, b: PackageArg)
    requires Complete(args, provided) && OrderIrrelevant(args, provided) && a in args && b in args && a != b
    ensures Harmless(a, b, provided)
  {
    if !Harmless(a, b, provided) {
      var rest := Witness(a, b, provided);
      WitnessIsFillable(a, rest, args);
      BothOrders(args, provided, a, b, rest);
      SameInBothOrders(args, provided, a, b, WitnessBody(a, rest));
    }
  }

  /** The order of the declarations is irrelevant in every body, exactly when filling an argument
      leaves the values of all the others alone. */
  lemma OrderIrrelevantExactlyWhen(args: seq<PackageArg>, provided: Provided)
    requires Complete(args, provided)
    ensures OrderIrrelevant(args, provided) <==> AllHarmless(args, provided)
  {
    if OrderIrrelevant(args, provided) {
      forall a, b | a in args && b in args && a != b
        ensures Harmless(a, b, provided)
      {
        OrderIrrelevantIsHarmless(args, provided, a, b);
      }
    }
    if AllHarmless(args, provided) {
      forall segs, args' | FillableByAll(segs, args) && Reordered(args, args')
        ensures Fill(RenderBody(segs), args', provided) == Fill(RenderBody(segs), args, provided)
      {
        HarmlessInAnyOrder(segs, args, args', provided);
      }
    }
  }
}
