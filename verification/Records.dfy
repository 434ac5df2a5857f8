/** Structured log records: one line of key=value fields, and the decoder that recovers them. */
module Records {
  import opened Results
  import opened Texts
  import opened Seqs

  type Field = (string, string)

  // ---------- Rendering ----------

  predicate NeedsQuoting(c: char) {
    IsWhitespace(c) || c == '"' || c == '\\' || IsControl(c)
  }

  predicate MustQuote(v: string) {
    exists i :: 0 <= i < |v| && NeedsQuoting(v[i])
  }

  function EscapeChar(c: char): string {
    if c == '"' then "\\\""
    else if c == '\\' then "\\\\"
    else if c == '\n' then "\\n"
    else if c == '\r' then "\\r"
    else if c == '\t' then "\\t"
    else if IsControl(c) then " "
    else [c]
  }

  function Escape(v: string): string {
    if v == "" then "" else EscapeChar(v[0]) + Escape(v[1..])
  }

  function RenderValue(v: string): string {
    if MustQuote(v) then "\"" + Escape(v) + "\"" else v
  }

  function RenderField(f: Field): string {
    " " + f.0 + "=" + RenderValue(f.1)
  }

  function RenderFields(fields: seq<Field>): string {
    if fields == [] then "" else RenderField(fields[0]) + RenderFields(fields[1..])
  }

  function RenderRecord(kind: string, fields: seq<Field>): string {
    kind + RenderFields(fields)
  }

  class Record {
    const kind: string
    var fields: seq<Field>

    constructor (kind: string)
      ensures this.kind == kind && fields == []
    {
      this.kind := kind;
      fields := [];
    }

    /** Empty values are skipped. */
    method AddField(key: string, value: string)
      modifies this
      ensures fields == if value == "" then old(fields) else old(fields) + [(key, value)]
    {
      if value != "" {
        fields := fields + [(key, value)];
      }
    }

    method Render() returns (out: string)
      ensures out == RenderRecord(kind, fields)
    {
      out := kind;
      assert fields[0..] == fields;
      for i := 0 to |fields|
        invariant out + RenderFields(fields[i..]) == RenderRecord(kind, fields)
      {
        FirstFrom(fields, i);
        var (k, v) := fields[i];
        Reassociate(out, RenderField(fields[i]), RenderFields(fields[i + 1..]));
        var value := Quote(v);
        out := out + (" " + k + "=" + value);
      }
      EmptyUnit(out);
    }
  }

  method Quote(v: string) returns (out: string)
    ensures out == RenderValue(v)
  {
    var quoted := AnyNeedsQuoting(v);
    if quoted {
      out := EscapeAll(v);
      out := "\"" + out + "\"";
    } else {
      out := v;
    }
  }

  method AnyNeedsQuoting(v: string) returns (found: bool)
    ensures found == MustQuote(v)
  {
    for i := 0 to |v|
      invariant forall k :: 0 <= k < i ==> !NeedsQuoting(v[k])
    {
      if NeedsQuoting(v[i]) {
        return true;
      }
    }
    return false;
  }

  method EscapeAll(v: string) returns (out: string)
    ensures out == Escape(v)
  {
    out := "";
    assert v[0..] == v;
    for i := 0 to |v|
      invariant out + Escape(v[i..]) == Escape(v)
    {
      FirstFrom(v, i);
      Reassociate(out, EscapeChar(v[i]), Escape(v[i + 1..]));
      out := out + EscapeChar(v[i]);
    }
    EmptyUnit(out);
  }

  // ---------- Decoding ----------

  function UnescapeChar(c: char): Option<char> {
    if c == '"' || c == '\\' then Some(c)
    else if c == 'n' then Some('\n')
    else if c == 'r' then Some('\r')
    else if c == 't' then Some('\t')
    else None
  }

  /** A quoted value up to its closing quote, and what follows it. */
  function DecodeQuoted(s: string): Option<(string, string)> {
    if s == "" then None
    else if s[0] == '"' then Some(("", s[1..]))
    else if s[0] == '\\' then
      if |s| < 2 || UnescapeChar(s[1]).None? then None
      else
        match DecodeQuoted(s[2..])
        case Some((v, rest)) => Some(([UnescapeChar(s[1]).value] + v, rest))
        case None => None
    else
      match DecodeQuoted(s[1..])
      case Some((v, rest)) => Some(([s[0]] + v, rest))
      case None => None
  }

  function DecodeValue(s: string): Option<(string, string)> {
    if s != "" && s[0] == '"' then DecodeQuoted(s[1..])
    else Some((s[..IndexOf(s, ' ')], s[IndexOf(s, ' ')..]))
  }

  function DecodeFields(s: string): Option<seq<Field>>
    decreases |s|
  {
    if s == "" then Some([])
    else
      var eq := IndexOf(s, '=');
      if s[0] != ' ' || eq == |s| then None
      else
        match DecodeValue(s[eq + 1..])
        case None => None
        case Some((v, rest)) =>
          if |rest| >= |s| then None
          else
            match DecodeFields(rest)
            case None => None
            case Some(fields) => Some([(s[1..eq], v)] + fields)
  }

  function DecodeRecord(s: string): Option<(string, seq<Field>)> {
    var i := IndexOf(s, ' ');
    match DecodeFields(s[i..])
    case None => None
    case Some(fields) => Some((s[..i], fields))
  }

  // ---------- What survives ----------

  /** A control character that is rendered as a space. */
  predicate IsLost(c: char) {
    IsControl(c) && c != '\n' && c != '\r' && c != '\t'
  }

  function SanitizeChar(c: char): char {
    if IsLost(c) then ' ' else c
  }

  function Sanitize(v: string): (r: string)
    ensures |r| == |v|
  {
    seq(|v|, i requires 0 <= i < |v| => SanitizeChar(v[i]))
  }

  function SanitizeFields(fields: seq<Field>): (r: seq<Field>)
    ensures |r| == |fields|
  {
    seq(|fields|, i requires 0 <= i < |fields| => (fields[i].0, Sanitize(fields[i].1)))
  }

  lemma SanitizeFirst(v: string)
    requires v != ""
    ensures Sanitize(v) == [SanitizeChar(v[0])] + Sanitize(v[1..])
  {
  }

  lemma SanitizeFirstField(fields: seq<Field>)
    requires fields != []
    ensures SanitizeFields(fields) == [(fields[0].0, Sanitize(fields[0].1))] + SanitizeFields(fields[1..])
  {
  }

  lemma DecodeEscapedChar(c: char, t: string)
    requires DecodeQuoted(t).Some?
    ensures var (v, rest) := DecodeQuoted(t).value;
            DecodeQuoted(EscapeChar(c) + t) == Some(([SanitizeChar(c)] + v, rest))
  {
  }

  lemma {:induction false} QuotedRoundTrip(v: string, rest: string)
    ensures DecodeQuoted(Escape(v) + ("\"" + rest)) == Some((Sanitize(v), rest))
  {
    if v == "" {
      EmptyUnit("\"" + rest);
      assert ("\"" + rest)[1..] == rest;
    } else {
      QuotedRoundTrip(v[1..], rest);
      Reassociate(EscapeChar(v[0]), Escape(v[1..]), "\"" + rest);
      DecodeEscapedChar(v[0], Escape(v[1..]) + ("\"" + rest));
      SanitizeFirst(v);
    }
  }

  lemma PlainValueIsSanitized(v: string)
    requires !MustQuote(v)
    ensures Sanitize(v) == v && ' ' !in v && (v == "" || v[0] != '"')
  {
  }

  /** A rendered value, followed by the end of the line or the next field, decodes. */
  lemma ValueRoundTrip(v: string, rest: string)
    requires rest == "" || rest[0] == ' '
    ensures DecodeValue(RenderValue(v) + rest) == Some((Sanitize(v), rest))
  {
    if MustQuote(v) {
      QuotedRoundTrip(v, rest);
      Reassociate("\"", Escape(v), "\"");
      Reassociate("\"" + Escape(v), "\"", rest);
      Reassociate("\"", Escape(v), "\"" + rest);
      assert (RenderValue(v) + rest)[1..] == Escape(v) + ("\"" + rest);
    } else {
      PlainValueIsSanitized(v);
      if rest == "" {
        EmptyUnit(v);
        IndexOfFirst(v, ' ', "");
      } else {
        IndexOfFirst(v, ' ', rest[1..]);
        assert v + [' '] + rest[1..] == v + rest;
      }
      assert (v + rest)[..|v|] == v && (v + rest)[|v|..] == rest;
    }
  }

  lemma RenderFieldsStart(fields: seq<Field>)
    ensures RenderFields(fields) == "" || RenderFields(fields)[0] == ' '
  {
  }

  ghost predicate CleanKeys(fields: seq<Field>) {
    forall i :: 0 <= i < |fields| ==> '=' !in fields[i].0
  }

  lemma FieldSplits(f: Field, rest: string)
    requires '=' !in f.0
    ensures var s := RenderField(f) + rest;
            s[0] == ' ' && IndexOf(s, '=') == 1 + |f.0| < |s| && s[1..1 + |f.0|] == f.0 &&
            s[2 + |f.0|..] == RenderValue(f.1) + rest
  {
    var s := RenderField(f) + rest;
    var key, value := " " + f.0, RenderValue(f.1) + rest;
    assert s == key + ['='] + value;
    IndexOfFirst(key, '=', value);
  }

  lemma DecodeFirstField(s: string, eq: nat, v: string, rest: string)
    requires s != "" && s[0] == ' ' && eq == IndexOf(s, '=') < |s| && eq >= 1 && |rest| < |s|
    requires DecodeValue(s[eq + 1..]) == Some((v, rest)) && DecodeFields(rest).Some?
    ensures DecodeFields(s) == Some([(s[1..eq], v)] + DecodeFields(rest).value)
  {
  }

  lemma {:induction false} FieldsRoundTrip(fields: seq<Field>)
    requires CleanKeys(fields)
    ensures DecodeFields(RenderFields(fields)) == Some(SanitizeFields(fields))
  {
    if fields == [] {
      assert SanitizeFields([]) == [];
    } else {
      var f, rest := fields[0], RenderFields(fields[1..]);
      FieldSplits(f, rest);
      RenderFieldsStart(fields[1..]);
      ValueRoundTrip(f.1, rest);
      FieldsRoundTrip(fields[1..]);
      DecodeFirstField(RenderFields(fields), 1 + |f.0|, Sanitize(f.1), rest);
      SanitizeFirstField(fields);
    }
  }

  lemma KindSplits(kind: string, rest: string)
    requires ' ' !in kind && (rest == "" || rest[0] == ' ')
    ensures IndexOf(kind + rest, ' ') == |kind|
    ensures (kind + rest)[..|kind|] == kind && (kind + rest)[|kind|..] == rest
  {
    if rest == "" {
      EmptyUnit(kind);
      IndexOfFirst(kind, ' ', "");
    } else {
      IndexOfFirst(kind, ' ', rest[1..]);
      SplitAt(rest, 1);
      Reassociate(kind, [' '], rest[1..]);
    }
    SplitsBack(kind, rest);
  }

  /** Every rendered record decodes: the kind, every key in order, and every value with its lost
      control characters turned into spaces. */
  lemma RecordRoundTrip(kind: string, fields: seq<Field>)
    requires ' ' !in kind && CleanKeys(fields)
    ensures DecodeRecord(RenderRecord(kind, fields)) == Some((kind, SanitizeFields(fields)))
  {
    RenderFieldsStart(fields);
    FieldsRoundTrip(fields);
    KindSplits(kind, RenderFields(fields));
  }

  ghost predicate NothingLost(v: string) {
    forall i :: 0 <= i < |v| ==> !IsLost(v[i])
  }

  lemma SanitizeIsIdentity(v: string)
    ensures Sanitize(v) == v <==> NothingLost(v)
  {
  }

  /** A record round-trips faithfully exactly when no value holds a lost control character. */
  lemma FaithfulExactlyWhen(kind: string, fields: seq<Field>)
    requires ' ' !in kind && CleanKeys(fields)
    ensures DecodeRecord(RenderRecord(kind, fields)) == Some((kind, fields)) <==>
            forall i :: 0 <= i < |fields| ==> NothingLost(fields[i].1)
  {
    RecordRoundTrip(kind, fields);
    var decoded := SanitizeFields(fields);
    forall i | 0 <= i < |fields|
      ensures decoded[i] == fields[i] <==> NothingLost(fields[i].1)
    {
      SanitizeIsIdentity(fields[i].1);
    }
    if forall i :: 0 <= i < |fields| ==> NothingLost(fields[i].1) {
      assert decoded == fields;
    }
  }

  /** The promise of a faithful round trip fails: a bell in a value comes back as a space. */
  lemma BellIsLost()
    ensures DecodeRecord(RenderRecord("cmd", [("line", "\U{7}")])) == Some(("cmd", [("line", " ")]))
  {
    var fields := [("line", "\U{7}")];
    RecordRoundTrip("cmd", fields);
    assert Sanitize("\U{7}") == " ";
    assert SanitizeFields(fields) == [("line", " ")];
  }

  // ---------- One physical line ----------

  ghost predicate NoControl(s: string) {
    forall i :: 0 <= i < |s| ==> !IsControl(s[i])
  }

  lemma NoControlConcat(a: string, b: string)
    requires NoControl(a) && NoControl(b)
    ensures NoControl(a + b)
  {
  }

  lemma {:induction false} EscapeHasNoControl(v: string)
    ensures NoControl(Escape(v))
  {
    if v != "" {
      EscapeHasNoControl(v[1..]);
      NoControlConcat(EscapeChar(v[0]), Escape(v[1..]));
    }
  }

  lemma RenderValueHasNoControl(v: string)
    ensures NoControl(RenderValue(v))
  {
    if MustQuote(v) {
      EscapeHasNoControl(v);
    } else {
      assert forall i :: 0 <= i < |v| ==> !NeedsQuoting(v[i]);
    }
  }

  lemma {:induction false} RenderFieldsHasNoControl(fields: seq<Field>)
    requires forall i :: 0 <= i < |fields| ==> NoControl(fields[i].0)
    ensures NoControl(RenderFields(fields))
  {
    if fields != [] {
      RenderFieldsHasNoControl(fields[1..]);
      RenderValueHasNoControl(fields[0].1);
      NoControlConcat(RenderField(fields[0]), RenderFields(fields[1..]));
    }
  }

  /** Whatever the values hold, the record is one physical line: no newline and no other control
      character, as long as the kind and the keys have none. */
  lemma OnePhysicalLine(kind: string, fields: seq<Field>)
    requires NoControl(kind) && forall i :: 0 <= i < |fields| ==> NoControl(fields[i].0)
    ensures NoControl(RenderRecord(kind, fields)) && |Lines(RenderRecord(kind, fields))| <= 1
  {
    RenderFieldsHasNoControl(fields);
    var s := RenderRecord(kind, fields);
    NoControlConcat(kind, RenderFields(fields));
    assert IndexOf(s, '\n') < |s| ==> IsControl(s[IndexOf(s, '\n')]);
  }

  lemma {:induction false} EscapeIgnoresLost(v: string)
    ensures Escape(Sanitize(v)) == Escape(v)
  {
    if v != "" {
      EscapeIgnoresLost(v[1..]);
      SanitizeFirst(v);
      FirstOfConcat([SanitizeChar(v[0])], Sanitize(v[1..]));
    }
  }

  lemma ValueIgnoresLost(v: string)
    ensures RenderValue(Sanitize(v)) == RenderValue(v)
  {
    EscapeIgnoresLost(v);
    if i :| 0 <= i < |v| && NeedsQuoting(v[i]) {
      assert NeedsQuoting(Sanitize(v)[i]);
    } else {
      PlainValueIsSanitized(v);
    }
  }

  lemma {:induction false} FieldsIgnoreLost(fields: seq<Field>)
    ensures RenderFields(SanitizeFields(fields)) == RenderFields(fields)
  {
    if fields != [] {
      FieldsIgnoreLost(fields[1..]);
      ValueIgnoresLost(fields[0].1);
      SanitizeFirstField(fields);
    }
  }

  /** Two records have the same line exactly when they have the same kind and the same fields, lost
      characters aside: no decoder can recover more than this one, or needs to recover less. */
  lemma SameLineExactlyWhen(kind: string, fields: seq<Field>, kind': string, fields': seq<Field>)
    requires ' ' !in kind && CleanKeys(fields) && ' ' !in kind' && CleanKeys(fields')
    ensures RenderRecord(kind, fields) == RenderRecord(kind', fields') <==>
            kind == kind' && SanitizeFields(fields) == SanitizeFields(fields')
  {
    FieldsIgnoreLost(fields);
    FieldsIgnoreLost(fields');
    RecordRoundTrip(kind, fields);
    RecordRoundTrip(kind', fields');
  }

  // ---------- What stands in the line, character by character ----------

  /** No character of it is a quote, a backslash or a control character. */
  ghost predicate Unescaped(v: string) {
    forall i :: 0 <= i < |v| ==> v[i] as int != 0x22 && v[i] as int != 0x5C && !IsControl(v[i])
  }

  ghost predicate Bare(v: string) {
    Unescaped(v) && forall i :: 0 <= i < |v| ==> !IsWhitespace(v[i])
  }

  /** What a quote, a backslash or a control character becomes between quotes. */
  ghost predicate EscapedAs(c: char, text: string) {
    if c as int in {0x22, 0x5C} then text == "\\" + [c]
    else if c as int == 0x0A then text == "\\" + "n"
    else if c as int == 0x0D then text == "\\" + "r"
    else if c as int == 0x09 then text == "\\" + "t"
    else IsControl(c) && text == " "
  }

  lemma {:induction false} UnescapedStays(v: string)
    requires Unescaped(v)
    ensures Escape(v) == v
  {
    if v != "" {
      UnescapedStays(v[1..]);
    }
  }

  lemma {:induction false} EscapeConcat(a: string, b: string)
    ensures Escape(a + b) == Escape(a) + Escape(b)
  {
    if a == "" {
      EmptyUnit(b);
      EmptyUnit(Escape(b));
    } else {
      FirstOfConcat(a, b);
      EscapeConcat(a[1..], b);
      Reassociate(EscapeChar(a[0]), Escape(a[1..]), Escape(b));
    }
  }

  lemma EscapesTo(c: char, text: string)
    requires EscapedAs(c, text)
    ensures Escape([c]) == text && NeedsQuoting(c)
  {
    EmptyUnit(EscapeChar(c));
  }

  /** A value that needs no quoting stands bare; whitespace alone puts it between quotes as it is. */
  lemma UnescapedValue(v: string)
    requires Unescaped(v)
    ensures RenderValue(v) == if Bare(v) then v else "\"" + v + "\""
  {
    UnescapedStays(v);
  }

  /** Anything else is replaced where it stands. */
  lemma EscapedValue(a: string, c: char, text: string, b: string)
    requires EscapedAs(c, text)
    ensures RenderValue(a + ([c] + b)) == "\"" + (Escape(a) + (text + Escape(b))) + "\""
    ensures (Unescaped(a) ==> Escape(a) == a) && (Unescaped(b) ==> Escape(b) == b)
  {
    EscapesTo(c, text);
    EscapeConcat(a, [c] + b);
    EscapeConcat([c], b);
    assert (a + ([c] + b))[|a|] == c;
    if Unescaped(a) {
      UnescapedStays(a);
    }
    if Unescaped(b) {
      UnescapedStays(b);
    }
  }

  lemma {:induction false} RenderFieldsConcat(a: seq<Field>, b: seq<Field>)
    ensures RenderFields(a + b) == RenderFields(a) + RenderFields(b)
  {
    if a == [] {
      EmptyUnit(b);
      EmptyUnit(RenderFields(b));
    } else {
      FirstOfConcat(a, b);
      RenderFieldsConcat(a[1..], b);
      Reassociate(RenderField(a[0]), RenderFields(a[1..]), RenderFields(b));
    }
  }

  lemma FieldsAround(before: seq<Field>, f: Field, after: seq<Field>)
    ensures RenderFields(before + ([f] + after)) == RenderFields(before) + (RenderField(f) + RenderFields(after))
  {
    RenderFieldsConcat(before, [f] + after);
    FirstOfConcat([f], after);
    EmptyUnit(after);
  }

  /** A field stands behind those before it as a space, its key, an equals sign and its value: bare if no
      character of it needs quoting, between quotes if only whitespace does. */
  lemma FieldStands(kind: string, before: seq<Field>, key: string, v: string, after: seq<Field>)
    requires Unescaped(v)
    ensures var value := if Bare(v) then v else "\"" + v + "\"";
            RenderRecord(kind, before + ([(key, v)] + after)) ==
            RenderRecord(kind, before) + (" " + key + "=" + value + RenderFields(after))
  {
    UnescapedValue(v);
    FieldsAround(before, (key, v), after);
    Reassociate(kind, RenderFields(before), RenderField((key, v)) + RenderFields(after));
  }
}
