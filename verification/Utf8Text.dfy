/** Decoding UTF-8 bytes to text and back (section 3 of RFC 3629). */
module Utf8Text {
  import opened ByteStrings
  import Seqs

  /** The byte that carries the lowest six bits of n after a character's first byte. */
  function Tail(n: nat): byte {
    (0x80 + n % 64) as byte
  }

  function EncodeChar(c: char): (s: Bytes)
    ensures s != []
  {
    var n := c as int;
    var a := n / 64;
    var b := a / 64;
    if n < 0x80 then [n as byte]
    else if n < 0x800 then [(0xC0 + a) as byte, Tail(n)]
    else if n < 0x1_0000 then [(0xE0 + b) as byte, Tail(a), Tail(n)]
    else [(0xF0 + b / 64) as byte, Tail(b), Tail(a), Tail(n)]
  }

  function Encode(s: string): Bytes {
    if s == "" then [] else EncodeChar(s[0]) + Encode(s[1..])
  }

  /** A number that goes on in one more byte. */
  function Shifted(n: int, tail: byte): int {
    n * 64 + (tail as int - 0x80)
  }

  /** The number that the character at the start of s stands for. */
  function CodePoint(s: Bytes): (n: int)
    requires CharLength(s) > 0
    ensures 0 <= n < 0xD800 || 0xE000 <= n < 0x11_0000
  {
    var first := s[0] as int;
    if first < 0x80 then first
    else if first < 0xE0 then Shifted(first - 0xC0, s[1])
    else if first < 0xF0 then Shifted(Shifted(first - 0xE0, s[1]), s[2])
    else Shifted(Shifted(Shifted(first - 0xF0, s[1]), s[2]), s[3])
  }

  function Decode(s: Bytes): string
    requires Utf8(s)
  {
    if s == [] then "" else [CodePoint(s) as char] + Decode(s[CharLength(s)..])
  }

  lemma TailsReadBack(n: nat)
    ensures IsTail(Tail(n)) && Shifted(n / 64, Tail(n)) == n
  {
  }

  lemma CharReadsBack(c: char, rest: Bytes)
    ensures CharLength(EncodeChar(c) + rest) == |EncodeChar(c)|
    ensures CodePoint(EncodeChar(c) + rest) == c as int
  {
    var n := c as int;
    var s := EncodeChar(c) + rest;
    TailsReadBack(n);
    TailsReadBack(n / 64);
    TailsReadBack(n / 64 / 64);
    if n < 0x80 {
      assert s[0] as int == n;
    } else if n < 0x800 {
      assert s[0] as int == 0xC0 + n / 64 && s[1] == Tail(n);
    } else if n < 0x1_0000 {
      assert s[0] as int == 0xE0 + n / 64 / 64 && s[1] == Tail(n / 64) && s[2] == Tail(n);
    } else {
      assert s[0] as int == 0xF0 + n / 64 / 64 / 64 && s[1] == Tail(n / 64 / 64);
      assert s[2] == Tail(n / 64) && s[3] == Tail(n);
    }
  }

  lemma {:induction false} DecodeEncode(s: string)
    ensures Utf8(Encode(s)) && Decode(Encode(s)) == s
  {
    if s != "" {
      var e, rest := EncodeChar(s[0]), Encode(s[1..]);
      DecodeEncode(s[1..]);
      CharReadsBack(s[0], rest);
      Seqs.SplitsBack(e, rest);
    }
  }

  lemma ShiftedSplits(n: nat, tail: byte)
    requires IsTail(tail)
    ensures Shifted(n, tail) >= 0 && Shifted(n, tail) / 64 == n && Tail(Shifted(n, tail)) == tail
  {
  }

  lemma TwoBytesWriteBack(s: Bytes, n: nat)
    requires CharLength(s) == 2 && n == CodePoint(s)
    ensures EncodeChar(n as char) == [s[0], s[1]]
  {
    ShiftedSplits(s[0] as int - 0xC0, s[1]);
  }

  lemma ThreeBytesWriteBack(s: Bytes, n: nat, a: nat)
    requires CharLength(s) == 3 && n == CodePoint(s) && a == Shifted(s[0] as int - 0xE0, s[1])
    ensures EncodeChar(n as char) == [s[0], s[1], s[2]]
  {
    ShiftedSplits(s[0] as int - 0xE0, s[1]);
    ShiftedSplits(a, s[2]);
    assert n == Shifted(a, s[2]);
  }

  lemma FourBytesAreWide(s: Bytes)
    requires CharLength(s) == 4
    ensures CodePoint(s) >= 0x1_0000 && IsTail(s[1]) && IsTail(s[2]) && IsTail(s[3]) && s[0] >= 0xF0
    ensures CodePoint(s) == Shifted(Shifted(Shifted(s[0] as int - 0xF0, s[1]), s[2]), s[3])
  {
  }

  lemma FourBytesEncoded(first: byte, t1: byte, t2: byte, t3: byte, b: nat, a: nat, n: nat)
    requires first >= 0xF0 && IsTail(t1) && IsTail(t2) && IsTail(t3)
    requires b == Shifted(first as int - 0xF0, t1) && a == Shifted(b, t2) && n == Shifted(a, t3)
    requires 0x1_0000 <= n < 0x11_0000
    ensures EncodeChar(n as char) == [first, t1, t2, t3]
  {
    ShiftedSplits(first as int - 0xF0, t1);
    ShiftedSplits(b, t2);
    ShiftedSplits(a, t3);
  }

  lemma FourBytesWriteBack(s: Bytes, n: nat)
    requires CharLength(s) == 4 && n == CodePoint(s)
    ensures EncodeChar(n as char) == [s[0], s[1], s[2], s[3]]
  {
    FourBytesAreWide(s);
    var b := Shifted(s[0] as int - 0xF0, s[1]);
    FourBytesEncoded(s[0], s[1], s[2], s[3], b, Shifted(b, s[2]), n);
  }

  lemma CharWritesBack(s: Bytes)
    requires CharLength(s) > 0
    ensures EncodeChar(CodePoint(s) as char) == s[..CharLength(s)]
  {
    var n := CodePoint(s);
    if CharLength(s) == 2 {
      TwoBytesWriteBack(s, n);
    } else if CharLength(s) == 3 {
      ThreeBytesWriteBack(s, n, Shifted(s[0] as int - 0xE0, s[1]));
    } else if CharLength(s) == 4 {
      FourBytesWriteBack(s, n);
    }
  }

  lemma {:induction false} EncodeDecode(s: Bytes)
    requires Utf8(s)
    ensures Encode(Decode(s)) == s
  {
    if s != [] {
      var n := CharLength(s);
      CharWritesBack(s);
      EncodeDecode(s[n..]);
      Seqs.SplitAt(s, n);
      Seqs.FirstOfConcat([CodePoint(s) as char], Decode(s[n..]));
    }
  }

  /** UTF-8 bytes are the encoding of what they decode to and of nothing else, and only UTF-8 bytes are
      an encoding. */
  lemma EncodesExactly(text: string, s: Bytes)
    ensures Encode(text) == s <==> Utf8(s) && Decode(s) == text
  {
    DecodeEncode(text);
    if Utf8(s) {
      EncodeDecode(s);
    }
  }

  // ---------- Lossy decoding ----------

  const REPLACEMENT: char := '\U{FFFD}'

  /** How many bytes a broken character takes: as many as could still have become one, and at least
      its first. */
  function BrokenLength(s: Bytes): (n: nat)
    requires s != [] && CharLength(s) == 0
    ensures 1 <= n <= |s|
  {
    if |s| >= 2 && 0xE0 <= s[0] <= 0xF4 && IsTail(s[1]) && (s[0] == 0xE0 ==> s[1] >= 0xA0) &&
       (s[0] == 0xED ==> s[1] <= 0x9F) && (s[0] == 0xF0 ==> s[1] >= 0x90) && (s[0] == 0xF4 ==> s[1] <= 0x8F) then
      if |s| >= 3 && s[0] >= 0xF0 && IsTail(s[2]) then 3 else 2
    else 1
  }

  /** Every broken character becomes one replacement character. */
  function Lossy(s: Bytes): string
    decreases |s|
  {
    if s == [] then ""
    else if CharLength(s) > 0 then [CodePoint(s) as char] + Lossy(s[CharLength(s)..])
    else [REPLACEMENT] + Lossy(s[BrokenLength(s)..])
  }

  lemma {:induction false} LossyOfText(s: Bytes)
    requires Utf8(s)
    ensures Lossy(s) == Decode(s)
    decreases |s|
  {
    if s != [] {
      LossyOfText(s[CharLength(s)..]);
    }
  }

  /** An ASCII byte ends whatever character came before it, whole or broken. */
  lemma AsciiEndsChar(p: Bytes, x: Bytes)
    requires p != [] && (x == [] || x[0] <= 0x7F)
    ensures CharLength(p + x) == CharLength(p)
    ensures CharLength(p) == 0 ==> BrokenLength(p + x) == BrokenLength(p)
    ensures CharLength(p) > 0 ==> CodePoint(p + x) == CodePoint(p)
  {
    var s := p + x;
    Seqs.SplitsBack(p, x);
    assert x != [] ==> s[|p|] == x[0];
    if CharLength(p) > 0 {
      CharLengthOfExtension(p, x);
    } else if 0 < CharLength(s) <= |p| {
      CharLengthOfPrefix(s, |p|);
    }
  }

  lemma {:induction false} LossyConcat(p: Bytes, x: Bytes)
    requires x == [] || x[0] <= 0x7F
    ensures Lossy(p + x) == Lossy(p) + Lossy(x)
    decreases |p|
  {
    if p == [] {
      Seqs.EmptyUnit(x);
      Seqs.EmptyUnit(Lossy(x));
    } else {
      var n := if CharLength(p) > 0 then CharLength(p) else BrokenLength(p);
      var c := if CharLength(p) > 0 then CodePoint(p) as char else REPLACEMENT;
      AsciiEndsChar(p, x);
      Seqs.CutWithin(p, x, n);
      LossyConcat(p[n..], x);
      assert Lossy(p) == [c] + Lossy(p[n..]) && Lossy(p + x) == [c] + Lossy(p[n..] + x);
      Seqs.Reassociate([c], Lossy(p[n..]), Lossy(x));
    }
  }

  function Replacements(k: nat): string {
    seq(k, _ => REPLACEMENT)
  }

  /** The tails that a cut leaves at the front become replacement characters. */
  lemma {:induction false} LossyAfterTails(s: Bytes, k: nat)
    requires k <= |s| && Tails(s, 0, k) && Utf8(s[k..])
    ensures Lossy(s) == Replacements(k) + Decode(s[k..])
    decreases k
  {
    if k == 0 {
      Seqs.SplitAt(s, 0);
      LossyOfText(s);
      Seqs.EmptyUnit(Decode(s));
      assert Replacements(0) == "";
    } else {
      assert IsTail(s[0]);
      assert s[1..][k - 1..] == s[k..];
      LossyAfterTails(s[1..], k - 1);
      assert Replacements(k) == [REPLACEMENT] + Replacements(k - 1);
      Seqs.Reassociate([REPLACEMENT], Replacements(k - 1), Decode(s[k..]));
    }
  }

  lemma CutInsideChar(s: Bytes, cut: nat, rest: Bytes, after: Bytes)
    requires 0 < cut < CharLength(s) && rest == s[cut..] && after == s[CharLength(s)..] && Utf8(after)
    ensures rest[CharLength(s) - cut..] == after
    ensures Lossy(rest) == Replacements(CharLength(s) - cut) + Decode(after)
  {
    var k := CharLength(s) - cut;
    assert rest[k..] == after;
    assert forall i :: 0 <= i < k ==> rest[i] == s[cut + i];
    LossyAfterTails(rest, k);
  }

  lemma WholeIsLossless(s: Bytes)
    requires Utf8(s)
    ensures Lossy(s) == Replacements(0) + Decode(s)
  {
    LossyOfText(s);
    Seqs.EmptyUnit(Decode(s));
    assert Replacements(0) == "";
  }

  /** Cutting text anywhere costs at most the character that is cut: the rest decodes as it was, after
      at most three replacement characters. */
  lemma {:induction false} LossyAfterCut(s: Bytes, cut: nat, rest: Bytes) returns (k: nat)
    requires Utf8(s) && cut <= |s| && rest == s[cut..]
    ensures k <= 3 && k <= |rest| && Utf8(rest[k..])
    ensures Lossy(rest) == Replacements(k) + Decode(rest[k..])
    decreases |s|
  {
    var n := CharLength(s);
    if cut == 0 || s == [] {
      k := 0;
      Seqs.SplitAt(rest, 0);
      WholeIsLossless(rest);
    } else if cut < n {
      k := n - cut;
      CutInsideChar(s, cut, rest, s[n..]);
    } else {
      assert s[n..][cut - n..] == rest;
      k := LossyAfterCut(s[n..], cut - n, rest);
    }
  }

  // ---------- Broken characters ----------

  /** Some well-formed character starts with the first m bytes of s. */
  ghost predicate CouldStart(s: Bytes, m: nat)
    requires m <= |s|
  {
    exists c :: CharLength(c) == |c| && m <= |c| && s[..m] == c[..m]
  }

  lemma CouldStartWith(s: Bytes, m: nat, c: Bytes)
    requires m <= |s| && CharLength(c) == |c| && m <= |c| && s[..m] == c[..m]
    ensures CouldStart(s, m)
  {
  }

  lemma BrokenStart(s: Bytes, n: nat)
    requires s != [] && CharLength(s) == 0 && n == BrokenLength(s) && n > 1
    ensures CouldStart(s, n)
  {
    if n == 3 {
      CouldStartWith(s, 3, [s[0], s[1], s[2], 0x80]);
    } else if s[0] < 0xF0 {
      CouldStartWith(s, 2, [s[0], s[1], 0x80]);
    } else {
      CouldStartWith(s, 2, [s[0], s[1], 0x80, 0x80]);
    }
  }

  lemma SameFront(s: Bytes, m: nat, c: Bytes, i: nat)
    requires i < m <= |s| && m <= |c| && s[..m] == c[..m]
    ensures s[i] == c[i]
  {
    assert s[i] == s[..m][i] == c[..m][i] == c[i];
  }

  lemma StartIsNoLonger(s: Bytes, m: nat, c: Bytes)
    requires s != [] && m <= |s| && CharLength(c) == |c| && m <= |c| && s[..m] == c[..m]
    ensures CharLength(s) > 0 || m <= BrokenLength(s)
  {
    if m >= 1 {
      SameFront(s, m, c, 0);
    }
    if m >= 2 {
      SameFront(s, m, c, 1);
    }
    if m >= 3 {
      SameFront(s, m, c, 2);
    }
    if m >= 4 {
      SameFront(s, m, c, 3);
    }
  }

  /** A broken character takes its first byte, and as many more as could still have become one. */
  lemma BrokenLengthExactly(s: Bytes, n: nat)
    requires s != [] && CharLength(s) == 0
    ensures n == BrokenLength(s) <==>
            1 <= n <= |s| && (n > 1 ==> CouldStart(s, n)) && forall m :: n < m <= |s| ==> !CouldStart(s, m)
  {
    var b := BrokenLength(s);
    if b > 1 {
      BrokenStart(s, b);
    }
    forall m | b < m <= |s|
      ensures !CouldStart(s, m)
    {
      if c :| CharLength(c) == |c| && m <= |c| && s[..m] == c[..m] {
        StartIsNoLonger(s, m, c);
      }
    }
  }

  lemma TruncatedIsBroken(c: Bytes, k: nat)
    requires CharLength(c) == |c| && 0 < k < |c|
    ensures CharLength(c[..k]) == 0 && BrokenLength(c[..k]) == k
  {
  }

  /** A character that is cut off and followed by ASCII becomes one replacement character. */
  lemma TruncatedIsOneReplacement(c: Bytes, k: nat, rest: Bytes)
    requires CharLength(c) == |c| && 0 < k < |c| && (rest == [] || rest[0] <= 0x7F)
    ensures Lossy(c[..k] + rest) == ['\U{FFFD}'] + Lossy(rest)
  {
    var broken := c[..k];
    TruncatedIsBroken(c, k);
    AsciiEndsChar(broken, rest);
    Seqs.SplitsBack(broken, rest);
  }

  /** A byte that starts no character becomes one, whatever follows it. */
  lemma StrayByteIsOneReplacement(b: byte, rest: Bytes)
    requires 0x80 <= b <= 0xC1 || 0xF5 <= b
    ensures Lossy([b] + rest) == ['\U{FFFD}'] + Lossy(rest)
  {
    Seqs.SplitsBack([b], rest);
  }

  // ---------- Order ----------

  /** The bytes differ first where a has the smaller one. */
  ghost predicate Before(a: Bytes, b: Bytes) {
    exists i :: 0 <= i < |a| && i < |b| && a[..i] == b[..i] && a[i] < b[i]
  }

  lemma DifferAt(a: Bytes, b: Bytes, i: nat)
    requires i < |a| && i < |b| && a[..i] == b[..i] && a[i] < b[i]
    ensures Before(a, b)
  {
  }

  lemma TailOrder(m: nat, n: nat)
    requires m < n
    ensures m / 64 < n / 64 || (m / 64 == n / 64 && Tail(m) < Tail(n))
    ensures m / 64 == n / 64 ==> Tail(m / 64) == Tail(n / 64)
  {
  }

  lemma SameLengthOrder(c: char, d: char)
    requires c < d && |EncodeChar(c)| == |EncodeChar(d)|
    ensures Before(EncodeChar(c), EncodeChar(d))
  {
    var m, n, a, b := c as int, d as int, EncodeChar(c), EncodeChar(d);
    TailOrder(m, n);
    if m / 64 < n / 64 {
      TailOrder(m / 64, n / 64);
      if m / 64 / 64 < n / 64 / 64 {
        TailOrder(m / 64 / 64, n / 64 / 64);
      }
    }
    if a[0] < b[0] {
      DifferAt(a, b, 0);
    } else if a[1] < b[1] {
      DifferAt(a, b, 1);
    } else if a[2] < b[2] {
      DifferAt(a, b, 2);
    } else {
      DifferAt(a, b, 3);
    }
  }

  /** Bytes are ordered as the characters they stand for (section 1 of RFC 3629). */
  lemma OrderIsKept(c: char, d: char)
    requires c < d
    ensures Before(EncodeChar(c), EncodeChar(d))
  {
    if |EncodeChar(c)| == |EncodeChar(d)| {
      SameLengthOrder(c, d);
    } else {
      DifferAt(EncodeChar(c), EncodeChar(d), 0);
    }
  }
}
