/** What a Minecraft handshake is, as a grammar over bytes. */
module HandshakeGrammar {
  import opened Wire
  import opened VarInt

  const MAX_SERVER_ADDRESS_BYTES := 255 * 3
  const MAX_HANDSHAKE_LEN := 1 + 5 + 2 + MAX_SERVER_ADDRESS_BYTES + 2 + 1

  /** The raw bytes of each field of a handshake body. */
  datatype Fields = Fields(
    id: seq<Byte>, version: seq<Byte>, addressLen: seq<Byte>, address: seq<Byte>, port: seq<Byte>, state: seq<Byte>)

  function Flatten(f: Fields): seq<Byte> {
    f.id + f.version + f.addressLen + f.address + f.port + f.state
  }

  /** The pieces fit together: VarInts where VarInts belong, and as many address bytes as announced. */
  predicate WellFormed(f: Fields) {
    && IsVarInt(f.id)
    && IsVarInt(f.version)
    && IsVarInt(f.addressLen)
    && IsVarInt(f.state)
    && |f.port| == 2
    && Value(f.addressLen) == |f.address|
  }

  predicate IsHandshake(f: Fields) {
    && WellFormed(f)
    && Value(f.id) == 0
    && |f.address| <= MAX_SERVER_ADDRESS_BYTES
    && 1 <= Value(f.state) <= 3
  }

  /** A length-prefixed body, as it travels on the wire. */
  datatype Frame = Frame(prefix: seq<Byte>, fields: Fields)

  function Bytes(fr: Frame): seq<Byte> {
    fr.prefix + Flatten(fr.fields)
  }

  /** The fields have a handshake's shape and the prefix counts their bytes. */
  predicate IsPacket(fr: Frame) {
    && IsVarInt(fr.prefix)
    && Value(fr.prefix) == |Flatten(fr.fields)|
    && WellFormed(fr.fields)
  }

  predicate IsFrame(fr: Frame) {
    && IsPacket(fr)
    && 1 <= |Flatten(fr.fields)| <= MAX_HANDSHAKE_LEN
    && IsHandshake(fr.fields)
  }

  /** The declared payload opens with one complete handshake frame; anything may follow it. */
  ghost predicate StartsWithHandshake(payload: seq<Byte>) {
    exists fr :: IsFrame(fr) && Bytes(fr) <= payload
  }

  lemma EmptyIsNoHandshake()
    ensures !StartsWithHandshake([])
  {
  }

  // ---- Where the fields lie ----------------------------------------------

  function VersionAt(f: Fields): nat {
    |f.id|
  }

  function AddressLenAt(f: Fields): nat {
    VersionAt(f) + |f.version|
  }

  function AddressAt(f: Fields): nat {
    AddressLenAt(f) + |f.addressLen|
  }

  function PortAt(f: Fields): nat {
    AddressAt(f) + |f.address|
  }

  function StateAt(f: Fields): nat {
    PortAt(f) + |f.port|
  }

  /** Every field lies at its offset, whatever follows the body. */
  lemma FieldsSlices(f: Fields, s: seq<Byte>)
    requires Flatten(f) <= s
    ensures StateAt(f) + |f.state| == |Flatten(f)| <= |s|
    ensures f.id == s[..VersionAt(f)]
    ensures f.version == s[VersionAt(f)..AddressLenAt(f)]
    ensures f.addressLen == s[AddressLenAt(f)..AddressAt(f)]
    ensures f.address == s[AddressAt(f)..PortAt(f)]
    ensures f.port == s[PortAt(f)..StateAt(f)]
    ensures f.state == s[StateAt(f)..StateAt(f) + |f.state|]
  {
    assert s == Flatten(f) + s[|Flatten(f)|..];
  }

  /** The fields between consecutive cuts of `s`. */
  function Carve(s: seq<Byte>, i1: nat, i2: nat, i3: nat, i4: nat, i5: nat, i6: nat): Fields
    requires i1 <= i2 <= i3 <= i4 <= i5 <= i6 <= |s|
  {
    Fields(s[..i1], s[i1..i2], s[i2..i3], s[i3..i4], s[i4..i5], s[i5..i6])
  }

  lemma CarveFlattens(s: seq<Byte>, i1: nat, i2: nat, i3: nat, i4: nat, i5: nat, i6: nat)
    requires i1 <= i2 <= i3 <= i4 <= i5 <= i6 <= |s|
    ensures Flatten(Carve(s, i1, i2, i3, i4, i5, i6)) == s[..i6]
  {
    Glue(s, i1, i2);
    Glue(s, i2, i3);
    Glue(s, i3, i4);
    Glue(s, i4, i5);
    Glue(s, i5, i6);
  }

  lemma Glue(s: seq<Byte>, i: nat, j: nat)
    requires i <= j <= |s|
    ensures s[..i] + s[i..j] == s[..j]
  {
  }

  /** Reading a VarInt in the middle of `s`. */
  function DecodeFrom(s: seq<Byte>, i: nat): Decoded {
    Decode(Tail(s, i))
  }

  lemma DecodeAt(s: seq<Byte>, i: nat, w: seq<Byte>)
    requires i + |w| <= |s| && s[i..i + |w|] == w
    requires IsVarInt(w)
    ensures DecodeFrom(s, i) == Number(Value(w), |w|)
  {
    DecodeComplete(w, s[i + |w|..]);
    assert s[i..] == w + s[i + |w|..];
  }

  /** Reading left to right recovers every VarInt field. */
  lemma FieldsDecode(f: Fields, s: seq<Byte>)
    requires WellFormed(f) && Flatten(f) <= s
    ensures StateAt(f) + |f.state| == |Flatten(f)| <= |s|
    ensures DecodeFrom(s, 0) == Number(Value(f.id), |f.id|)
    ensures DecodeFrom(s, VersionAt(f)) == Number(Value(f.version), |f.version|)
    ensures DecodeFrom(s, AddressLenAt(f)) == Number(|f.address|, |f.addressLen|)
    ensures DecodeFrom(s, StateAt(f)) == Number(Value(f.state), |f.state|)
  {
    hide Decode, Value, IsVarInt;
    FieldsSlices(f, s);
    DecodeAt(s, 0, f.id);
    DecodeAt(s, VersionAt(f), f.version);
    DecodeAt(s, AddressLenAt(f), f.addressLen);
    DecodeAt(s, StateAt(f), f.state);
  }

  /** Two well-formed bodies that one string could start with are the same body. */
  lemma FieldsUnique(f: Fields, g: Fields, s: seq<Byte>)
    requires WellFormed(f) && WellFormed(g)
    requires Flatten(f) <= s && Flatten(g) <= s
    ensures f == g
  {
    SameLayout(f, g, s);
    FieldsSlices(f, s);
    FieldsSlices(g, s);
  }

  lemma SameLayout(f: Fields, g: Fields, s: seq<Byte>)
    requires WellFormed(f) && WellFormed(g)
    requires Flatten(f) <= s && Flatten(g) <= s
    ensures |f.id| == |g.id| && |f.version| == |g.version| && |f.addressLen| == |g.addressLen|
    ensures |f.address| == |g.address| && |f.state| == |g.state|
  {
    hide Decode, Value, IsVarInt;
    FieldsDecode(f, s);
    FieldsDecode(g, s);
  }

  lemma FrameSlices(fr: Frame, s: seq<Byte>)
    requires IsVarInt(fr.prefix) && Bytes(fr) <= s
    ensures DecodeFrom(s, 0) == Number(Value(fr.prefix), |fr.prefix|)
    ensures fr.prefix == s[..|fr.prefix|]
    ensures Flatten(fr.fields) <= s[|fr.prefix|..]
  {
    var p := fr.prefix;
    assert s[..|Bytes(fr)|] == Bytes(fr);
    assert s[..|p|] == Bytes(fr)[..|p|] == p;
    DecodeAt(s, 0, p);
    assert s[|p|..][..|Flatten(fr.fields)|] == Bytes(fr)[|p|..];
  }

  /** The grammar is unambiguous: a payload opens with at most one packet of this shape. */
  lemma FrameUnique(a: Frame, b: Frame, s: seq<Byte>)
    requires IsPacket(a) && IsPacket(b)
    requires Bytes(a) <= s && Bytes(b) <= s
    ensures a == b
  {
    var p, q := a.prefix, b.prefix;
    FrameSlices(a, s);
    FrameSlices(b, s);
    FieldsUnique(a.fields, b.fields, s[|p|..]);
  }

  /** A packet of this shape is recognised on its merits: nothing else in the stream can stand in for it. */
  lemma PacketJudged(fr: Frame, stream: seq<Byte>)
    requires IsPacket(fr) && Bytes(fr) <= stream
    ensures StartsWithHandshake(stream) <==> IsFrame(fr)
  {
    if StartsWithHandshake(stream) {
      var g :| IsFrame(g) && Bytes(g) <= stream;
      FrameUnique(fr, g, stream);
    }
  }

  /** A frame is recognised as soon as all of it is declared, and never a byte earlier, wherever the cut falls. */
  lemma RecognisedExactlyWhenComplete(fr: Frame, stream: seq<Byte>, len: nat)
    requires IsFrame(fr) && Bytes(fr) <= stream
    requires len <= |stream|
    ensures StartsWithHandshake(stream[..len]) <==> len >= |Bytes(fr)|
  {
    var w := stream[..len];
    if StartsWithHandshake(w) {
      var g :| IsFrame(g) && Bytes(g) <= w;
      assert Bytes(g) <= stream;
      FrameUnique(fr, g, stream);
    }
    if len >= |Bytes(fr)| {
      assert Bytes(fr) <= w;
    }
  }

  /** More data never takes a verdict back. */
  lemma StartsWithMonotone(payload: seq<Byte>, more: seq<Byte>)
    requires StartsWithHandshake(payload)
    ensures StartsWithHandshake(payload + more)
  {
    var fr :| IsFrame(fr) && Bytes(fr) <= payload;
    assert Bytes(fr) <= payload + more;
  }
}
