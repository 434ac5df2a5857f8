/** Byte strings, and which of them are UTF-8 text (the syntax of section 4 of RFC 3629). */
module ByteStrings {
  import Seqs

  newtype byte = b: int | 0 <= b < 256

  type Bytes = seq<byte>

  /** The bytes of a Rust string. */
  type Text = s: Bytes | Utf8(s) witness []

  predicate IsTail(b: byte) {
    0x80 <= b <= 0xBF
  }

  predicate Tails(s: Bytes, from: nat, to: nat) {
    to <= |s| && forall k :: from <= k < to ==> IsTail(s[k])
  }

  /** The length of the well-formed character that s starts with, or 0 if there is none. */
  function CharLength(s: Bytes): (n: nat)
    ensures n <= |s|
    ensures n > 0 ==> forall k :: 1 <= k < n ==> IsTail(s[k])
  {
    if |s| == 0 then 0
    else if s[0] <= 0x7F then 1
    else if 0xC2 <= s[0] <= 0xDF && Tails(s, 1, 2) then 2
    else if 0xE0 <= s[0] <= 0xEF && Tails(s, 1, 3) && (s[0] == 0xE0 ==> s[1] >= 0xA0) &&
            (s[0] == 0xED ==> s[1] <= 0x9F) then 3
    else if 0xF0 <= s[0] <= 0xF4 && Tails(s, 1, 4) && (s[0] == 0xF0 ==> s[1] >= 0x90) &&
            (s[0] == 0xF4 ==> s[1] <= 0x8F) then 4
    else 0
  }

  predicate Utf8(s: Bytes) {
    s == [] || (CharLength(s) > 0 && Utf8(s[CharLength(s)..]))
  }

  /** An ASCII byte of UTF-8 text is a whole character: the text can be cut just after it. */
  lemma {:induction false} CutAfterAscii(s: Bytes, i: nat)
    requires Utf8(s) && i < |s| && s[i] <= 0x7F
    ensures Utf8(s[..i + 1]) && Utf8(s[i + 1..])
    decreases |s|
  {
    var n := CharLength(s);
    assert i == 0 || i >= n;
    if i >= n {
      CutAfterAscii(s[n..], i - n);
      Seqs.CutBeyond(s, n, i + 1);
      CharLengthOfPrefix(s, i + 1);
    } else {
      assert s[..1][1..] == [];
    }
  }

  lemma CharLengthOfPrefix(s: Bytes, m: nat)
    requires CharLength(s) <= m <= |s| && CharLength(s) > 0
    ensures CharLength(s[..m]) == CharLength(s)
  {
  }

  lemma {:induction false} Utf8Concat(a: Bytes, b: Bytes)
    requires Utf8(a) && Utf8(b)
    ensures Utf8(a + b)
    decreases |a|
  {
    if a == [] {
      assert a + b == b;
    } else {
      var n := CharLength(a);
      Utf8Concat(a[n..], b);
      Seqs.CutWithin(a, b, n);
      CharLengthOfExtension(a, b);
    }
  }

  lemma CharLengthOfExtension(a: Bytes, b: Bytes)
    requires CharLength(a) > 0
    ensures CharLength(a + b) == CharLength(a)
  {
  }

  function Ascii(s: string): Bytes
    requires forall i :: 0 <= i < |s| ==> s[i] as int < 0x80
  {
    seq(|s|, i requires 0 <= i < |s| => s[i] as int as byte)
  }
}
