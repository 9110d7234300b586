/** The canonical encoding of a handshake: what clients send. */
module Encoding {
  import opened Wire
  import opened VarInt
  import opened HandshakeGrammar
  import opened SliceParser
  import opened SliceMeaning

  /** An `i32` as the 32 bits sent for it. */
  function Unsigned(i: int): (n: nat)
    requires -0x8000_0000 <= i < 0x8000_0000
    ensures n < WORD && Signed(n) == i
  {
    if i < 0 then i + WORD else i
  }

  predicate Encodable(version: int, address: seq<Byte>, port: nat, state: nat) {
    && -0x8000_0000 <= version < 0x8000_0000
    && |address| < 0x8000_0000
    && port < 0x1_0000
    && state < WORD
  }

  function Canonical(version: int, address: seq<Byte>, port: nat, state: nat): Fields
    requires Encodable(version, address, port, state)
  {
    Fields(Encode(0), Encode(Unsigned(version)), Encode(|address|), address, [port / 256, port % 256], Encode(state))
  }

  /** The frame on the wire, length prefix included. */
  function CanonicalFrame(version: int, address: seq<Byte>, port: nat, state: nat): Frame
    requires Encodable(version, address, port, state)
  {
    var f := Canonical(version, address, port, state);
    Frame(Encode(|Flatten(f)|), f)
  }

  lemma CanonicalWellFormed(version: int, address: seq<Byte>, port: nat, state: nat)
    requires Encodable(version, address, port, state)
    ensures var f := Canonical(version, address, port, state);
            && WellFormed(f)
            && |f.addressLen| <= 5 && |f.state| <= 5
            && Value(f.id) == 0 && |f.id| == 1
            && Value(f.version) == Unsigned(version) && |f.version| <= 5
            && Value(f.state) == state
  {
    RoundTrip(0, []);
    RoundTrip(Unsigned(version), []);
    RoundTrip(|address|, []);
    RoundTrip(state, []);
  }

  /** Parsing undoes encoding: every field comes back, for every address the platform takes as UTF-8. */
  lemma ParseUndoesEncode(utf8: Utf8, version: int, address: seq<Byte>, port: nat, state: nat)
    requires Encodable(version, address, port, state)
    requires utf8(address)
    ensures Parsed(utf8, Flatten(Canonical(version, address, port, state)))
         == if state == 1 then Ok(Handshake(version, address, port, Status))
            else if state == 2 then Ok(Handshake(version, address, port, Login))
            else Err(InvalidNextState(Signed(state)))
  {
    hide Value, Encode, Flatten, Parsed, IsVarInt;
    var f := Canonical(version, address, port, state);
    CanonicalWellFormed(version, address, port, state);
    ParsedIsDiagnosis(utf8, f, Flatten(f));
  }

  /** State 5 with bytes after it: reported for the bytes, although the handshake is not otherwise valid. */
  lemma BadStateHidesBehindTrailingBytes(utf8: Utf8, address: seq<Byte>, extra: seq<Byte>)
    requires |address| < 0x8000_0000 && utf8(address) && extra != []
    ensures var s := Flatten(Canonical(769, address, 25565, 5)) + extra;
            Parsed(utf8, s) == Err(TrailingBytes(|extra|)) && !DocumentedTrailing(utf8, s, |extra|)
  {
    hide Value, Encode, Flatten, Parsed, IsVarInt;
    var f := Canonical(769, address, 25565, 5);
    var s := Flatten(f) + extra;
    CanonicalWellFormed(769, address, 25565, 5);
    assert BodyThen(utf8, f, s, |extra|);
    TrailingBytesExactly(utf8, s, |extra|);
    TrailingBytesAsDocumented(utf8, s, |extra|);
  }

  /** The length limit is met by every canonical handshake, and is exact: some need all of it. */
  lemma CanonicalLength(version: int, address: seq<Byte>, port: nat, state: nat)
    requires Encodable(version, address, port, state)
    requires |address| <= MAX_SERVER_ADDRESS_BYTES && 1 <= state <= 3
    ensures var n := |Flatten(Canonical(version, address, port, state))|;
            && 1 <= n <= MAX_HANDSHAKE_LEN
            && (n == MAX_HANDSHAKE_LEN <==>
                  |address| == MAX_SERVER_ADDRESS_BYTES && (version < 0 || version >= 0x1000_0000))
  {
    Powers();
    EncodeLength(0, 1);
    EncodeLength(state, 1);
    EncodeLength(|address|, 1);
    EncodeLength(|address|, 2);
    EncodeLength(Unsigned(version), 4);
    EncodeLength(Unsigned(version), 5);
  }

  /** A canonical handshake is recognised, before anything else, exactly when address and state are in range. */
  lemma CanonicalAccepted(version: int, address: seq<Byte>, port: nat, state: nat, rest: seq<Byte>)
    requires Encodable(version, address, port, state)
    ensures StartsWithHandshake(Bytes(CanonicalFrame(version, address, port, state)) + rest)
         <==> (|address| <= MAX_SERVER_ADDRESS_BYTES && 1 <= state <= 3)
  {
    hide Value, Digits, IsVarInt, Encode;
    var fr := CanonicalFrame(version, address, port, state);
    CanonicalWellFormed(version, address, port, state);
    if |address| <= MAX_SERVER_ADDRESS_BYTES && 1 <= state <= 3 {
      CanonicalLength(version, address, port, state);
    }
    CanonicalIsPacket(version, address, port, state);
    PacketJudged(fr, Bytes(fr) + rest);
  }

  lemma CanonicalIsPacket(version: int, address: seq<Byte>, port: nat, state: nat)
    requires Encodable(version, address, port, state)
    ensures IsPacket(CanonicalFrame(version, address, port, state))
  {
    hide Value, Digits, IsVarInt, Encode;
    CanonicalWellFormed(version, address, port, state);
    RoundTrip(|Flatten(Canonical(version, address, port, state))|, []);
  }
}
