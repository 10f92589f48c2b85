/** Bytes, 32-bit big-endian integers, NUL-terminated fields and the
    small text helpers (ASCII literals, decimal numbers) the worker uses. */
module Bytes {

  newtype byte = x: int | 0 <= x < 256

  const U32_LIMIT: nat := 0x1_0000_0000

  /** The range of a Rust `u32`. */
  type u32 = n: nat | n < U32_LIMIT

  datatype Option<+T> = None | Some(value: T)

  /** Big-endian bytes of a 32-bit value (Rust's `to_be_bytes`). */
  function U32Bytes(n: u32): (b: seq<byte>)
    ensures |b| == 4
    ensures U32Value(b) == n
  {
    var m0 := n % 0x100_0000;
    var m1 := m0 % 0x1_0000;
    assert n == (n / 0x100_0000) * 0x100_0000 + m0;
    assert m0 == (m0 / 0x1_0000) * 0x1_0000 + m1;
    assert m1 == (m1 / 0x100) * 0x100 + m1 % 0x100;
    [(n / 0x100_0000) as byte, (m0 / 0x1_0000) as byte, (m1 / 0x100) as byte, (m1 % 0x100) as byte]
  }

  /** The value of four big-endian bytes (Rust's `from_be_bytes`). */
  function U32Value(b: seq<byte>): (n: u32)
    requires |b| == 4
  {
    b[0] as nat * 0x100_0000 + b[1] as nat * 0x1_0000 + b[2] as nat * 0x100 + b[3] as nat
  }

  /** Two four-byte groups with the same value are the same bytes. */
  lemma U32ValueInjective(a: seq<byte>, b: seq<byte>)
    requires |a| == 4 && |b| == 4
    ensures U32Value(a) == U32Value(b) <==> a == b
  {
    if U32Value(a) == U32Value(b) {
      assert a[0] == b[0];
      assert a[1] == b[1];
      assert a[2] == b[2];
      assert a[3] == b[3];
    }
  }

  /** Four bytes are the big-endian bytes of their value. */
  lemma U32BytesValue(b: seq<byte>)
    requires |b| == 4
    ensures U32Bytes(U32Value(b)) == b
  {
    U32ValueInjective(U32Bytes(U32Value(b)), b);
  }

  /** No byte of `s` is 0: a field a C string can hold. */
  predicate NulFree(s: seq<byte>) {
    forall i :: 0 <= i < |s| ==> s[i] != 0
  }

  /** A run of `n` zero bytes. */
  function Zeros(n: nat): (z: seq<byte>)
    ensures |z| == n
    ensures forall i :: 0 <= i < n ==> z[i] == 0
  {
    seq(n, _ => 0)
  }

  /** `s` without its trailing 0 bytes (Rust's `trim_end_matches('\0')`). */
  function TrimNul(s: seq<byte>): (r: seq<byte>)
    ensures |r| <= |s| && r == s[..|r|]
    ensures r == [] || r[|r| - 1] != 0
    ensures s == r + Zeros(|s| - |r|)
  {
    if |s| == 0 || s[|s| - 1] != 0 then s
    else
      var r := TrimNul(s[..|s| - 1]);
      TrimStep(s, r);
      r
  }

  /** One more trailing zero, for `TrimNul`. */
  lemma TrimStep(s: seq<byte>, r: seq<byte>)
    requires |s| > 0 && s[|s| - 1] == 0
    requires |r| <= |s| - 1 && r == s[..|r|] && s[..|s| - 1] == r + Zeros(|s| - 1 - |r|)
    ensures r == s[..|r|] && s == r + Zeros(|s| - |r|)
  {
    assert s == s[..|s| - 1] + [0];
    assert Zeros(|s| - 1 - |r|) + [0] == Zeros(|s| - |r|);
  }

  /** Trimming undoes padding with zeros of a field that does not end in 0. */
  lemma {:induction false} TrimNulPadded(x: seq<byte>, n: nat)
    requires x == [] || x[|x| - 1] != 0
    ensures TrimNul(x + Zeros(n)) == x
  {
    if n > 0 {
      ZerosSnoc(x, n);
      TrimLast(x + Zeros(n));
      TrimNulPadded(x, n - 1);
    } else {
      assert x + Zeros(0) == x;
    }
  }

  lemma ZerosSnoc(x: seq<byte>, n: nat)
    requires n > 0
    ensures (x + Zeros(n))[|x| + n - 1] == 0
    ensures (x + Zeros(n))[..|x| + n - 1] == x + Zeros(n - 1)
  {
  }

  lemma TrimLast(s: seq<byte>)
    requires |s| > 0 && s[|s| - 1] == 0
    ensures TrimNul(s) == TrimNul(s[..|s| - 1])
  {
  }

  /** The bytes of an ASCII string literal: each character's code. */
  function Ascii(s: string): (b: seq<byte>)
    ensures |b| == |s|
  {
    seq(|s|, i requires 0 <= i < |s| => (s[i] as int % 256) as byte)
  }

  /** ASCII digit byte of a value below ten. */
  function Digit(d: nat): (b: byte)
    requires d < 10
  {
    ('0' as int + d) as byte
  }

  predicate IsDigit(b: byte) {
    '0' as int <= b as int <= '9' as int
  }

  /** Decimal text of `n` without leading zeros (Rust's `to_string` on an
      unsigned integer). */
  function Decimal(n: nat): (s: seq<byte>)
    ensures |s| > 0
    ensures forall i :: 0 <= i < |s| ==> IsDigit(s[i])
    ensures |s| > 1 ==> s[0] != Digit(0)
  {
    if n < 10 then [Digit(n)] else Decimal(n / 10) + [Digit(n % 10)]
  }

  /** Reads a non-empty run of ASCII digits; None for anything else. */
  function ParseDecimal(s: seq<byte>): Option<nat>
  {
    if |s| == 0 then None
    else if !IsDigit(s[|s| - 1]) then None
    else
      var d := s[|s| - 1] as int - '0' as int;
      if |s| == 1 then Some(d)
      else match ParseDecimal(s[..|s| - 1])
        case None => None
        case Some(m) => Some(m * 10 + d)
  }

  /** Decimal text reads back as the number it was rendered from. */
  lemma {:induction false} DecimalRoundTrip(n: nat)
    ensures ParseDecimal(Decimal(n)) == Some(n)
  {
    if n >= 10 {
      var s := Decimal(n);
      assert s[..|s| - 1] == Decimal(n / 10);
      DecimalRoundTrip(n / 10);
    }
  }
}
