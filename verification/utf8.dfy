/** Well-formed UTF-8, as Rust's `String::from_utf8` accepts it: the byte
    sequences of table 3-7 of the Unicode Standard (no overlong forms, no
    surrogates, nothing above U+10FFFF). */
module Utf8 {
  import opened Bytes

  predicate InRange(b: byte, lo: int, hi: int) {
    lo <= b as int <= hi
  }

  /** Length of the well-formed scalar encoding that starts `s`, or 0 when
      `s` does not start with one. */
  function SequenceLength(s: seq<byte>): (n: nat)
    ensures n <= 4 && n <= |s|
  {
    if |s| == 0 then 0
    else
      var b0 := s[0];
      if b0 < 0x80 then 1
      else if InRange(b0, 0xC2, 0xDF) then
        if |s| >= 2 && InRange(s[1], 0x80, 0xBF) then 2 else 0
      else if InRange(b0, 0xE0, 0xEF) then
        var lo := if b0 == 0xE0 then 0xA0 else 0x80;
        var hi := if b0 == 0xED then 0x9F else 0xBF;
        if |s| >= 3 && InRange(s[1], lo, hi) && InRange(s[2], 0x80, 0xBF) then 3 else 0
      else if InRange(b0, 0xF0, 0xF4) then
        var lo := if b0 == 0xF0 then 0x90 else 0x80;
        var hi := if b0 == 0xF4 then 0x8F else 0xBF;
        if |s| >= 4 && InRange(s[1], lo, hi) && InRange(s[2], 0x80, 0xBF)
           && InRange(s[3], 0x80, 0xBF) then 4 else 0
      else 0
  }

  /** `s` is a concatenation of well-formed scalar encodings. */
  predicate Valid(s: seq<byte>)
    decreases |s|
  {
    |s| == 0 || (SequenceLength(s) > 0 && Valid(s[SequenceLength(s)..]))
  }

  /** The first scalar of `a + b` is read from `a` alone when `a` is valid. */
  lemma SequenceLengthAppend(a: seq<byte>, b: seq<byte>)
    requires SequenceLength(a) > 0
    ensures SequenceLength(a + b) == SequenceLength(a)
  {
    var n := SequenceLength(a);
    assert (a + b)[..n] == a[..n];
    assert forall i :: 0 <= i < n ==> (a + b)[i] == a[i];
  }

  /** Well-formed UTF-8 is closed under concatenation. */
  lemma {:induction false} ValidAppend(a: seq<byte>, b: seq<byte>)
    requires Valid(a) && Valid(b)
    ensures Valid(a + b)
    decreases |a|
  {
    if |a| > 0 {
      var n := SequenceLength(a);
      SequenceLengthAppend(a, b);
      assert (a + b)[n..] == a[n..] + b;
      ValidAppend(a[n..], b);
    } else {
      assert a + b == b;
    }
  }

  /** A run of 0 bytes is well-formed UTF-8 (each 0 is the character U+0000). */
  lemma {:induction false} ZerosValid(n: nat)
    ensures Valid(Zeros(n))
  {
    if n > 0 {
      assert Zeros(n)[1..] == Zeros(n - 1);
      ZerosValid(n - 1);
    }
  }
}
