/** What both codec generations share: the 12-byte packet header (magic,
    type, body length, each a big-endian 32-bit word) and the field readers
    deku applies to the bytes after it. Readers take the whole remaining
    input, not just the `length` bytes the header announces, and report
    either the value and the unread rest or an error. */
module Wire {
  import opened Bytes
  import opened Messages

  /** deku's "not enough data" parse error versus every other error
      (unknown magic, unknown type, an inconsistent length). */
  datatype DecodeError = Incomplete | Malformed

  datatype Decoded<+T> = Parsed(value: T, rest: seq<byte>) | Failed(error: DecodeError)

  /** How decoding `s + t` relates to decoding `s`: a value found in `s` is
      found again with `t` behind the rest, and a malformed `s` stays
      malformed whatever follows. Only an incomplete `s` may change. */
  ghost predicate Extends<T>(r: Decoded<T>, r': Decoded<T>, t: seq<byte>) {
    && (r.Parsed? ==> r' == Parsed(r.value, r.rest + t))
    && (r == Failed(Malformed) ==> r' == Failed(Malformed))
  }

  /** A successful read never leaves more than its input unread (the
      `...Split` lemmas say the rest is in fact the input's tail). */
  predicate Leaves<T>(s: seq<byte>, r: Decoded<T>) {
    r.Parsed? ==> |r.rest| <= |s|
  }

  /** `count = n`: exactly the next `n` bytes. */
  function Raw(n: nat, s: seq<byte>): (r: Decoded<seq<byte>>)
    ensures r.Parsed? ==> |r.value| == n
    ensures Leaves(s, r)
    ensures r.Failed? <==> |s| < n
    ensures r.Failed? ==> r.error == Incomplete
  {
    if |s| < n then Failed(Incomplete) else Parsed(s[..n], s[n..])
  }

  lemma RawExtends(n: nat, s: seq<byte>, t: seq<byte>)
    ensures Extends(Raw(n, s), Raw(n, s + t), t)
  {
    if |s| >= n {
      assert (s + t)[..n] == s[..n];
      assert (s + t)[n..] == s[n..] + t;
    }
  }

  /** A `CString` field: the bytes up to the first 0, which is consumed and
      dropped (the newer codec's `from_nul_terminated`). Input without a 0
      byte is not enough data. What the value is made of is stated by
      `CStrSplit` and `CStrFails`. */
  function CStr(s: seq<byte>): (r: Decoded<seq<byte>>)
    ensures r.Parsed? ==> |s| == |r.value| + 1 + |r.rest|
    ensures r.Failed? ==> r.error == Incomplete
  {
    if |s| == 0 then Failed(Incomplete)
    else if s[0] == 0 then Parsed([], s[1..])
    else match CStr(s[1..])
      case Failed(e) => Failed(e)
      case Parsed(v, rest) => Parsed([s[0]] + v, rest)
  }

  /** What `CStr` reads is a NUL-free field and its terminator. */
  lemma {:induction false} CStrSplit(s: seq<byte>)
    requires CStr(s).Parsed?
    ensures NulFree(CStr(s).value)
    ensures s == CStr(s).value + [0] + CStr(s).rest
  {
    if s[0] != 0 {
      CStrSplit(s[1..]);
      Prepend(s, CStr(s[1..]).value, CStr(s[1..]).rest);
    }
  }

  /** A non-zero first byte in front of a NUL-free field and its
      terminator, for `CStrSplit`. */
  lemma Prepend(s: seq<byte>, v: seq<byte>, r: seq<byte>)
    requires |s| > 0 && s[0] != 0 && NulFree(v) && s[1..] == v + [0] + r
    ensures NulFree([s[0]] + v) && s == [s[0]] + v + [0] + r
  {
    assert s == [s[0]] + s[1..];
  }

  /** `CStr` runs out of data exactly when there is no 0 byte. */
  lemma {:induction false} CStrFails(s: seq<byte>)
    ensures CStr(s).Failed? <==> NulFree(s)
  {
    if |s| > 0 && s[0] != 0 {
      CStrFails(s[1..]);
      assert NulFree(s) <==> NulFree(s[1..]) by {
        assert forall i :: 1 <= i < |s| ==> s[i] == s[1..][i - 1];
      }
    }
  }

  /** A NUL-free field followed by its terminator is read back whole. */
  lemma {:induction false} CStrTerminated(f: seq<byte>, t: seq<byte>)
    requires NulFree(f)
    ensures CStr(f + [0] + t) == Parsed(f, t)
  {
    if |f| == 0 {
      assert (f + [0] + t)[1..] == t;
    } else {
      assert (f + [0] + t)[1..] == f[1..] + [0] + t;
      CStrTerminated(f[1..], t);
      assert [f[0]] + f[1..] == f;
    }
  }

  lemma {:induction false} CStrExtends(s: seq<byte>, t: seq<byte>)
    ensures Extends(CStr(s), CStr(s + t), t)
  {
    if |s| > 0 {
      assert (s + t)[1..] == s[1..] + t;
      if s[0] != 0 {
        CStrExtends(s[1..], t);
      }
    }
  }

  /** A field that ends in its only 0 byte: what the older codec's
      NUL-inclusive fields hold. */
  predicate Terminated(f: seq<byte>) {
    |f| > 0 && f[|f| - 1] == 0 && NulFree(f[..|f| - 1])
  }

  /** `until = |v| *v == 0`: the bytes up to and including the first 0 (the
      older codec). */
  function UntilNul(s: seq<byte>): (r: Decoded<seq<byte>>)
    ensures r.Parsed? ==> |s| == |r.value| + |r.rest|
    ensures r.Failed? ==> r.error == Incomplete
  {
    if |s| == 0 then Failed(Incomplete)
    else if s[0] == 0 then Parsed([0], s[1..])
    else match UntilNul(s[1..])
      case Failed(e) => Failed(e)
      case Parsed(v, rest) => Parsed([s[0]] + v, rest)
  }

  /** The two field readers consume the same bytes; the older one keeps the
      terminator in the value. */
  lemma {:induction false} UntilNulIsCStr(s: seq<byte>)
    ensures CStr(s).Failed? ==> UntilNul(s) == CStr(s)
    ensures CStr(s).Parsed? ==> UntilNul(s) == Parsed(CStr(s).value + [0], CStr(s).rest)
  {
    if |s| > 0 && s[0] != 0 {
      UntilNulIsCStr(s[1..]);
      if CStr(s[1..]).Parsed? {
        var v, r := CStr(s[1..]).value, CStr(s[1..]).rest;
        assert CStr(s) == Parsed([s[0]] + v, r);
        assert UntilNul(s) == Parsed([s[0]] + (v + [0]), r);
        assert [s[0]] + (v + [0]) == [s[0]] + v + [0];
      }
    } else if |s| > 0 {
      assert CStr(s).value + [0] == [0];
    }
  }

  /** What `UntilNul` reads is a terminated field. */
  lemma UntilNulSplit(s: seq<byte>)
    requires UntilNul(s).Parsed?
    ensures Terminated(UntilNul(s).value)
    ensures s == UntilNul(s).value + UntilNul(s).rest
  {
    UntilNulIsCStr(s);
    CStrSplit(s);
    var v := CStr(s).value;
    assert (v + [0])[..|v|] == v;
    assert (v + [0])[|v|] == 0;
  }

  /** No field of `fs` holds a 0 byte. */
  predicate AllNulFree(fs: seq<seq<byte>>) {
    forall i :: 0 <= i < |fs| ==> NulFree(fs[i])
  }

  /** Fields written as C strings: each followed by its terminator. */
  function Joined(fs: seq<seq<byte>>): (b: seq<byte>)
    ensures |fs| == 0 ==> b == []
  {
    if |fs| == 0 then [] else fs[0] + [0] + Joined(fs[1..])
  }

  /** `k` C-string fields in a row. */
  function CStrs(k: nat, s: seq<byte>): (r: Decoded<seq<seq<byte>>>)
    ensures Leaves(s, r)
    ensures r.Parsed? ==> |r.value| == k
    ensures r.Failed? ==> r.error == Incomplete
  {
    if k == 0 then Parsed([], s)
    else match CStr(s)
      case Failed(e) => Failed(e)
      case Parsed(f, s1) =>
        match CStrs(k - 1, s1)
        case Failed(e) => Failed(e)
        case Parsed(fs, s2) => Parsed([f] + fs, s2)
  }

  /** One step of `CStrs`: a C string, then the remaining fields. */
  lemma CStrsStep(k: nat, s: seq<byte>)
    requires k > 0 && CStrs(k, s).Parsed?
    ensures CStr(s).Parsed? && CStrs(k - 1, CStr(s).rest).Parsed?
    ensures CStrs(k, s).value == [CStr(s).value] + CStrs(k - 1, CStr(s).rest).value
    ensures CStrs(k, s).rest == CStrs(k - 1, CStr(s).rest).rest
  {
  }

  /** What `CStrs` reads is exactly its fields, none holding a 0 byte,
      joined as C strings. */
  lemma {:induction false} CStrsSplit(k: nat, s: seq<byte>)
    requires CStrs(k, s).Parsed?
    ensures AllNulFree(CStrs(k, s).value)
    ensures s == Joined(CStrs(k, s).value) + CStrs(k, s).rest
  {
    if k > 0 {
      CStrsStep(k, s);
      var f, s1 := CStr(s).value, CStr(s).rest;
      var fs, s2 := CStrs(k - 1, s1).value, CStrs(k - 1, s1).rest;
      CStrSplit(s);
      CStrsSplit(k - 1, s1);
      JoinedCons(s, f, s1, fs, s2);
    }
  }

  /** Joining one more field in front, for `CStrsSplit`. */
  lemma JoinedCons(s: seq<byte>, f: seq<byte>, s1: seq<byte>, fs: seq<seq<byte>>, s2: seq<byte>)
    requires NulFree(f) && AllNulFree(fs)
    requires s == f + [0] + s1 && s1 == Joined(fs) + s2
    ensures AllNulFree([f] + fs)
    ensures s == Joined([f] + fs) + s2
  {
    assert ([f] + fs)[1..] == fs;
  }

  /** C-string fields read back as written, whatever follows them. */
  lemma {:induction false} CStrsRoundTrip(fs: seq<seq<byte>>, t: seq<byte>)
    requires AllNulFree(fs)
    ensures CStrs(|fs|, Joined(fs) + t) == Parsed(fs, t)
  {
    if |fs| > 0 {
      assert Joined(fs) + t == fs[0] + [0] + (Joined(fs[1..]) + t);
      CStrTerminated(fs[0], Joined(fs[1..]) + t);
      CStrsRoundTrip(fs[1..], t);
      assert [fs[0]] + fs[1..] == fs;
    }
  }

  lemma {:induction false} CStrsExtends(k: nat, s: seq<byte>, t: seq<byte>)
    ensures Extends(CStrs(k, s), CStrs(k, s + t), t)
  {
    if k > 0 {
      CStrExtends(s, t);
      if CStr(s).Parsed? {
        CStrsExtends(k - 1, CStr(s).rest, t);
      }
    }
  }

  /** Fields written verbatim, one after another. */
  function Concat(fs: seq<seq<byte>>): (b: seq<byte>)
    ensures |fs| == 0 ==> b == []
  {
    if |fs| == 0 then [] else fs[0] + Concat(fs[1..])
  }

  /** Every field ends in its only 0 byte. */
  predicate AllTerminated(fs: seq<seq<byte>>) {
    forall i :: 0 <= i < |fs| ==> Terminated(fs[i])
  }

  /** Each field with a terminator appended. */
  function Terminate(fs: seq<seq<byte>>): (ts: seq<seq<byte>>)
    ensures |ts| == |fs|
  {
    if |fs| == 0 then [] else [fs[0] + [0]] + Terminate(fs[1..])
  }

  /** Each field with its last byte dropped: undoes `Terminate`. */
  function Unterminate(ts: seq<seq<byte>>): (fs: seq<seq<byte>>)
    requires AllTerminated(ts)
    ensures |fs| == |ts| && AllNulFree(fs)
    ensures Terminate(fs) == ts
  {
    if |ts| == 0 then []
    else
      var f := ts[0][..|ts[0]| - 1];
      assert Terminated(ts[0]);
      assert f + [0] == ts[0];
      var rest := Unterminate(ts[1..]);
      assert ([f] + rest)[1..] == rest;
      [f] + rest
  }

  /** Appending a terminator to NUL-free fields gives terminated fields. */
  lemma {:induction false} TerminateAllTerminated(fs: seq<seq<byte>>)
    requires AllNulFree(fs)
    ensures AllTerminated(Terminate(fs))
  {
    if |fs| > 0 {
      TerminateAllTerminated(fs[1..]);
      var f := fs[0];
      assert (f + [0])[..|f|] == f;
      assert Terminated(f + [0]);
      assert Terminate(fs) == [f + [0]] + Terminate(fs[1..]);
    }
  }

  /** Terminated fields written verbatim are the same bytes as the bare
      fields written as C strings. */
  lemma {:induction false} ConcatTerminate(fs: seq<seq<byte>>)
    ensures Concat(Terminate(fs)) == Joined(fs)
  {
    if |fs| > 0 {
      assert Terminate(fs)[1..] == Terminate(fs[1..]);
      ConcatTerminate(fs[1..]);
    }
  }

  /** `k` fields each read up to and including its first 0 byte. */
  function UntilNuls(k: nat, s: seq<byte>): (r: Decoded<seq<seq<byte>>>)
    ensures Leaves(s, r)
    ensures r.Parsed? ==> |r.value| == k
  {
    if k == 0 then Parsed([], s)
    else match UntilNul(s)
      case Failed(e) => Failed(e)
      case Parsed(f, s1) =>
        match UntilNuls(k - 1, s1)
        case Failed(e) => Failed(e)
        case Parsed(fs, s2) => Parsed([f] + fs, s2)
  }

  /** A field-list result with every field's terminator put back. */
  function TerminateAll(r: Decoded<seq<seq<byte>>>): Decoded<seq<seq<byte>>> {
    match r
    case Parsed(fs, rest) => Parsed(Terminate(fs), rest)
    case Failed(e) => Failed(e)
  }

  /** The older field reader finds the same fields as the C-string reader,
      each with its terminator kept, and fails exactly when it fails. */
  lemma {:induction false} UntilNulsIsCStrs(k: nat, s: seq<byte>)
    ensures UntilNuls(k, s) == TerminateAll(CStrs(k, s))
  {
    if k > 0 {
      UntilNulIsCStr(s);
      if CStr(s).Parsed? {
        var f, s1 := CStr(s).value, CStr(s).rest;
        UntilNulsIsCStrs(k - 1, s1);
        var r := CStrs(k - 1, s1);
        if r.Parsed? {
          assert Terminate([f] + r.value) == [f + [0]] + Terminate(r.value);
        }
      }
    }
  }

  /** A body as read: its NUL-delimited fields and its trailing raw field. */
  datatype Parts = Parts(fields: seq<seq<byte>>, data: seq<byte>)

  /** The three header words. The magic decides between request and
      response; type and length are kept as read. */
  datatype Header = Header(magic: Magic, kind: u32, length: u32)

  /** Header bytes. The `usize` length goes through deku's `bytes = 4`,
      which keeps its low 32 bits. */
  function EncodeHeader(magic: Magic, kind: u32, length: nat): (b: seq<byte>)
    ensures |b| == 12
  {
    U32Bytes(magic.Value()) + U32Bytes(kind) + U32Bytes(length % U32_LIMIT)
  }

  /** The magic word is checked as soon as its four bytes are there; type
      and length need the rest of the twelve. */
  function DecodeHeader(s: seq<byte>): (r: Decoded<Header>)
    ensures r.Parsed? ==> |s| == 12 + |r.rest| && r.rest == s[12..]
    ensures |s| < 4 ==> r == Failed(Incomplete)
  {
    if |s| < 4 then Failed(Incomplete)
    else
      var m := U32Value(s[..4]);
      if m != RequestMagic.Value() && m != ResponseMagic.Value() then Failed(Malformed)
      else if |s| < 12 then Failed(Incomplete)
      else
        var magic := if m == RequestMagic.Value() then RequestMagic else ResponseMagic;
        Parsed(Header(magic, U32Value(s[4..8]), U32Value(s[8..12])), s[12..])
  }

  /** A header reads back as the words it was written from, whatever
      follows it. */
  lemma HeaderRoundTrip(magic: Magic, kind: u32, length: nat, t: seq<byte>)
    requires length < U32_LIMIT
    ensures DecodeHeader(EncodeHeader(magic, kind, length) + t) == Parsed(Header(magic, kind, length), t)
  {
    var a, b, c := U32Bytes(magic.Value()), U32Bytes(kind), U32Bytes(length);
    assert length % U32_LIMIT == length;
    assert EncodeHeader(magic, kind, length) == a + b + c;
    Words(a, b, c, t);
    HeaderOfWords(a + b + c + t, magic, kind, length);
  }

  /** A header is decoded from its three words' values. */
  lemma HeaderOfWords(s: seq<byte>, magic: Magic, kind: u32, length: u32)
    requires |s| >= 12 && U32Value(s[..4]) == magic.Value()
    requires U32Value(s[4..8]) == kind && U32Value(s[8..12]) == length
    ensures DecodeHeader(s) == Parsed(Header(magic, kind, length), s[12..])
  {
  }

  /** Where the three words and what follows them sit in a header's bytes. */
  lemma Words(a: seq<byte>, b: seq<byte>, c: seq<byte>, t: seq<byte>)
    requires |a| == 4 && |b| == 4 && |c| == 4
    ensures (a + b + c + t)[..4] == a && (a + b + c + t)[4..8] == b
    ensures (a + b + c + t)[8..12] == c && (a + b + c + t)[12..] == t
  {
  }

  /** The twelve bytes a header was read from are the ones writing it
      back produces: the header format has no slack. */
  lemma HeaderBytes(s: seq<byte>)
    requires DecodeHeader(s).Parsed?
    ensures s[..12] == EncodeHeader(DecodeHeader(s).value.magic, DecodeHeader(s).value.kind,
                                     DecodeHeader(s).value.length)
  {
    var h := DecodeHeader(s).value;
    assert h.length % U32_LIMIT == h.length;
    assert EncodeHeader(h.magic, h.kind, h.length) == U32Bytes(h.magic.Value()) + U32Bytes(h.kind) + U32Bytes(h.length);
    assert U32Value(s[..4]) == h.magic.Value();
    U32BytesValue(s[..4]);
    U32BytesValue(s[4..8]);
    U32BytesValue(s[8..12]);
    Rejoin(s);
  }

  lemma Rejoin(s: seq<byte>)
    requires |s| >= 12
    ensures s[..12] == s[..4] + s[4..8] + s[8..12]
  {
  }

  lemma HeaderExtends(s: seq<byte>, t: seq<byte>)
    ensures Extends(DecodeHeader(s), DecodeHeader(s + t), t)
  {
    if |s| >= 4 {
      assert (s + t)[..4] == s[..4];
    }
    if |s| >= 12 {
      assert (s + t)[4..8] == s[4..8];
      assert (s + t)[8..12] == s[8..12];
      assert (s + t)[12..] == s[12..] + t;
    }
  }
}
