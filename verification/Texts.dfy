/** Text as sequences of Unicode scalar values, with the string operations the parsers use. */
module Texts {
  /** The White_Space property of Unicode. */
  predicate IsWhitespace(c: char) {
    '\t' <= c <= '\r' || c == ' ' || c == '\U{85}' || c == '\U{A0}' || c == '\U{1680}' ||
    '\U{2000}' <= c <= '\U{200A}' || c == '\U{2028}' || c == '\U{2029}' || c == '\U{202F}' ||
    c == '\U{205F}' || c == '\U{3000}'
  }

  /** The general category Cc of Unicode. */
  predicate IsControl(c: char) {
    c < ' ' || '\U{7F}' <= c <= '\U{9F}'
  }

  /** The 25 code points of White_Space, and the 65 of Cc. */
  lemma ClassesAreFixed(c: char)
    ensures IsWhitespace(c) <==>
            c as int in {0x09, 0x0A, 0x0B, 0x0C, 0x0D, 0x20, 0x85, 0xA0, 0x1680, 0x2000, 0x2001, 0x2002, 0x2003, 0x2004,
                         0x2005, 0x2006, 0x2007, 0x2008, 0x2009, 0x200A, 0x2028, 0x2029, 0x202F, 0x205F, 0x3000}
    ensures IsControl(c) <==> c as int < 0x20 || 0x7F <= c as int < 0xA0
  {
  }

  // ---------- Searching ----------

  /** The first index of c, or |s|. */
  function IndexOf(s: string, c: char): (i: nat)
    ensures i <= |s| && (i < |s| ==> s[i] == c) && c !in s[..i]
  {
    if s == "" || s[0] == c then 0 else 1 + IndexOf(s[1..], c)
  }

  lemma {:induction false} IndexOfFirst(s: string, c: char, t: string)
    requires c !in s
    ensures IndexOf(s, c) == |s|
    ensures IndexOf(s + [c] + t, c) == |s|
  {
    if s == "" {
      assert s + [c] + t == [c] + t;
    } else {
      IndexOfFirst(s[1..], c, t);
      assert (s + [c] + t)[1..] == s[1..] + [c] + t;
    }
  }

  // ---------- Trimming ----------

  function TrimStart(s: string): (r: string)
    ensures r == "" || !IsWhitespace(r[0])
  {
    if s != "" && IsWhitespace(s[0]) then TrimStart(s[1..]) else s
  }

  function TrimEnd(s: string): (r: string)
    ensures r == "" || !IsWhitespace(r[|r| - 1])
    ensures r <= s
  {
    if s != "" && IsWhitespace(s[|s| - 1]) then TrimEnd(s[..|s| - 1]) else s
  }

  function Trim(s: string): string {
    TrimEnd(TrimStart(s))
  }

  lemma {:induction false} TrimStartIsSuffix(s: string)
    ensures |TrimStart(s)| <= |s| && TrimStart(s) == s[|s| - |TrimStart(s)|..]
  {
    if s != "" && IsWhitespace(s[0]) {
      TrimStartIsSuffix(s[1..]);
    }
  }

  lemma TrimKeepsChars(s: string, c: char)
    requires c !in s
    ensures c !in TrimStart(s) && c !in TrimEnd(s) && c !in Trim(s)
  {
  }

  predicate AllWhitespace(w: string) {
    forall i :: 0 <= i < |w| ==> IsWhitespace(w[i])
  }

  lemma {:induction false} TrimStartPast(w: string, s: string)
    requires AllWhitespace(w)
    ensures TrimStart(w + s) == TrimStart(s)
  {
    if w == "" {
      EmptySides(s);
    } else {
      assert (w + s)[1..] == w[1..] + s;
      TrimStartPast(w[1..], s);
    }
  }

  lemma {:induction false} TrimEndPast(s: string, w: string)
    requires AllWhitespace(w)
    ensures TrimEnd(s + w) == TrimEnd(s)
    decreases |w|
  {
    if w == "" {
      EmptySides(s);
    } else {
      assert (s + w)[..|s + w| - 1] == s + w[..|w| - 1];
      TrimEndPast(s, w[..|w| - 1]);
    }
  }

  lemma EmptySides(s: string)
    ensures s + "" == s && "" + s == s
  {
  }

  predicate Trimmed(s: string) {
    s == "" || (!IsWhitespace(s[0]) && !IsWhitespace(s[|s| - 1]))
  }

  /** Trimming takes the whitespace on both sides, all of it, and nothing else. */
  lemma TrimExactly(before: string, s: string, after: string)
    requires AllWhitespace(before) && AllWhitespace(after) && Trimmed(s)
    ensures Trim(before + s + after) == s
  {
    assert before + s + after == before + (s + after);
    TrimStartPast(before, s + after);
    if s == "" {
      EmptySides(after);
      EmptySides(s);
      TrimStartPast(after, "");
    } else {
      TrimEndPast(s, after);
    }
  }

  // ---------- Lines ----------

  predicate OneLine(s: string) {
    '\n' !in s
  }

  /** One line of `lines()`: the characters before a newline, less one carriage return. */
  function StripCr(s: string): string {
    if s != "" && s[|s| - 1] == '\r' then s[..|s| - 1] else s
  }

  function Lines(s: string): seq<string> {
    if s == "" then []
    else
      var i := IndexOf(s, '\n');
      if i == |s| then [s] else [StripCr(s[..i])] + Lines(s[i + 1..])
  }

  lemma LinesOfFirst(line: string, rest: string)
    requires '\n' !in line
    ensures Lines(line + "\n" + rest) == [StripCr(line)] + Lines(rest)
  {
    var s := line + "\n" + rest;
    IndexOfFirst(line, '\n', rest);
    assert s == line + ['\n'] + rest;
    assert s[..|line|] == line && s[|line| + 1..] == rest;
  }

  /** A line may end in a carriage return and a newline; the last line may end in neither, and then
      keeps what it has. */
  lemma LineEnds(line: string, rest: string)
    requires '\n' !in line
    ensures Lines(line + "\r" + "\n" + rest) == [line] + Lines(rest)
    ensures line != "" ==> Lines(line) == [line]
  {
    assert '\n' !in line + "\r" && (line + "\r")[..|line|] == line;
    LinesOfFirst(line + "\r", rest);
    IndexOfFirst(line, '\n', "");
  }

  lemma {:induction false} LinesHaveNoNewline(s: string, i: nat)
    requires i < |Lines(s)|
    ensures '\n' !in Lines(s)[i]
  {
    var n := IndexOf(s, '\n');
    if n < |s| && i > 0 {
      LinesHaveNoNewline(s[n + 1..], i - 1);
    }
  }

  /** Lines printed one after the other, each with its newline. */
  function Unlines(lines: seq<string>): string {
    if lines == [] then "" else lines[0] + "\n" + Unlines(lines[1..])
  }
}
