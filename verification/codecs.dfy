/** The two codec generations as decoders of the read loop, with the
    laws the loop's lemmas take as hypotheses proved of each. */
module Codecs {
  import opened Bytes
  import opened Messages
  import opened Wire
  import opened Framing
  import GearmanCodec
  import LegacyCodec

  /** `Packet::from_bytes` of the newer codec (src/protocols/gearman.rs). */
  const Current: Decoder := GearmanCodec.Decode

  /** `Packet::from_bytes` of the older codec (src/packet.rs). */
  const Legacy: Decoder := LegacyCodec.Decode

  /** The bytes a packet of the newer codec occupies: its header words,
      then each delimited field with a terminator, then the trailing
      field. For a packet the encoder accepts, this is its encoding. */
  function Occupied(p: Packet): (b: seq<byte>)
    ensures GearmanCodec.Encodable(p.payload) ==> b == GearmanCodec.Encode(p)
  {
    EncodeHeader(p.Magic(), p.kind, p.length) + GearmanCodec.Body(p.payload)
  }

  /** The newer codec has what the read loop relies on: every packet uses
      up bytes, more input never changes a packet or a malformed verdict,
      a packet occupied exactly the bytes it was read from, and a
      well-formed packet reads back from its encoding. */
  lemma CurrentLaws()
    ensures Shrinks(Current) && Prefixed(Current)
    ensures Reencodes(Current, Occupied)
    ensures ReadsBack(Current, Occupied, GearmanCodec.WellFormed)
  {
    forall s, t ensures Extends(Current(s), Current(s + t), t) {
      GearmanCodec.DecodeExtends(s, t);
    }
    forall s | Current(s).Parsed? ensures s == Occupied(Current(s).value) + Current(s).rest {
      GearmanCodec.DecodeEncode(s);
    }
    forall p, t | GearmanCodec.WellFormed(p) ensures Current(Occupied(p) + t) == Parsed(p, t) {
      GearmanCodec.RoundTrip(p, t);
    }
  }

  /** The same laws for the older codec, whose encoder is total. */
  lemma LegacyLaws()
    ensures Shrinks(Legacy) && Prefixed(Legacy)
    ensures Reencodes(Legacy, LegacyCodec.Encode)
    ensures ReadsBack(Legacy, LegacyCodec.Encode, LegacyCodec.WellFormed)
  {
    forall s, t ensures Extends(Legacy(s), Legacy(s + t), t) {
      LegacyCodec.DecodeExtends(s, t);
    }
    forall s | Legacy(s).Parsed? ensures s == LegacyCodec.Encode(Legacy(s).value) + Legacy(s).rest {
      LegacyCodec.DecodeEncode(s);
    }
    forall p, t | LegacyCodec.WellFormed(p) ensures Legacy(LegacyCodec.Encode(p) + t) == Parsed(p, t) {
      LegacyCodec.RoundTrip(p, t);
    }
  }

  /** Four zero bytes: not a magic word. */
  const Garbage: seq<byte> := [0, 0, 0, 0]

  /** Both generations reject the four zero bytes as malformed, whatever
      follows them. */
  lemma GarbageMalformed(t: seq<byte>)
    ensures Current(Garbage + t) == Failed(Malformed)
    ensures Legacy(Garbage + t) == Failed(Malformed)
  {
    assert (Garbage + t)[..4] == [0, 0, 0, 0];
  }
}
