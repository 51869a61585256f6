/** Byte length of a string once encoded as UTF-8 (`len(s.encode('utf-8'))`). */
module Utf8 {

  /** Number of bytes UTF-8 spends on one Unicode scalar value. */
  function CharBytes(c: char): (n: nat)
    ensures 1 <= n <= 4
  {
    if c as int < 0x80 then 1
    else if c as int < 0x800 then 2
    else if c as int < 0x1_0000 then 3
    else 4
  }

  /** The UTF-8 encoded size of `s`: a per-character sum of byte widths. */
  function Size(s: string): (n: nat)
    ensures |s| <= n <= 4 * |s|
    ensures n == 0 <==> s == []
  {
    if s == [] then 0 else CharBytes(s[0]) + Size(s[1..])
  }

  /** Encoding is additive over concatenation. */
  lemma {:induction false} SizeConcat(a: string, b: string)
    ensures Size(a + b) == Size(a) + Size(b)
  {
    if a == [] {
      assert a + b == b;
    } else {
      assert (a + b)[1..] == a[1..] + b;
      SizeConcat(a[1..], b);
    }
  }

  /** A contiguous piece of a string never encodes to more bytes than the whole. */
  lemma SizeSlice(s: string, i: nat, j: nat)
    requires i <= j <= |s|
    ensures Size(s[i..j]) <= Size(s)
  {
    assert s == s[..i] + s[i..j] + s[j..];
    SizeConcat(s[..i] + s[i..j], s[j..]);
    SizeConcat(s[..i], s[i..j]);
  }

  /** Summed encoded size of a list of strings. */
  function TotalSize(ss: seq<string>): (n: nat)
    ensures ss == [] ==> n == 0
  {
    if ss == [] then 0 else TotalSize(ss[..|ss| - 1]) + Size(ss[|ss| - 1])
  }
}
