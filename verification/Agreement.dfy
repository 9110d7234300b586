/** How the in-kernel recogniser and the slice parser relate. */
module Agreement {
  import opened Wire
  import opened VarInt
  import opened HandshakeGrammar
  import opened SliceParser
  import opened SliceMeaning

  /**
    What the recogniser lets through, the slice parser either parses or faults for one of the two
    documented reasons: an address that is not UTF-8, or the transfer state 3.
   */
  lemma AcceptedThenParsed(utf8: Utf8, payload: seq<Byte>) returns (fr: Frame)
    requires StartsWithHandshake(payload)
    ensures IsFrame(fr) && Bytes(fr) <= payload
    ensures Parsed(utf8, Flatten(fr.fields))
         == if !utf8(fr.fields.address) then Err(InvalidUtf8)
            else if Value(fr.fields.state) == 3 then Err(InvalidNextState(3))
            else Ok(Meaning(fr.fields))
  {
    fr :| IsFrame(fr) && Bytes(fr) <= payload;
    ParsedIsDiagnosis(utf8, fr.fields, Flatten(fr.fields));
  }

  /**
    What the slice parser accepts, the recogniser lets through behind any length prefix and before any
    other bytes, exactly when body and address respect its two size limits.
   */
  lemma ParsedThenAccepted(utf8: Utf8, body: seq<Byte>, prefix: seq<Byte>, rest: seq<Byte>)
    requires Parsed(utf8, body).Ok?
    requires IsVarInt(prefix) && Value(prefix) == |body|
    ensures StartsWithHandshake(prefix + body + rest)
         <==> (|body| <= MAX_HANDSHAKE_LEN
               && |Parsed(utf8, body).value.serverAddress| <= MAX_SERVER_ADDRESS_BYTES)
  {
    var f := Dissect(utf8, body);
    var stream := prefix + body + rest;
    var fr := Frame(prefix, f);
    assert Bytes(fr) == prefix + body;
    assert Bytes(fr) <= stream;
    FieldsSlices(f, body);
    PacketJudged(fr, stream);
  }

  /**
    The size limit is not the protocol's: a body whose VarInts are padded with empty groups can be
    longer than the limit, and then only the slice parser takes it.
   */
  lemma PaddedVarIntsDisagree(utf8: Utf8, address: seq<Byte>, prefix: seq<Byte>, rest: seq<Byte>)
    requires |address| == MAX_SERVER_ADDRESS_BYTES && utf8(address)
    requires IsVarInt(prefix) && Value(prefix) == 777
    ensures Parsed(utf8, Flatten(Padded(address))).Ok?
    ensures |Flatten(Padded(address))| == 777
    ensures !StartsWithHandshake(prefix + Flatten(Padded(address)) + rest)
  {
    var padded := Padded(address);
    PaddedIsWellFormed(address);
    FieldsSlices(padded, Flatten(padded));
    ParsedIsDiagnosis(utf8, padded, Flatten(padded));
    ParsedThenAccepted(utf8, Flatten(padded), prefix, rest);
  }

  /** A version VarInt of two bytes and an ID of five, both spelling 0. */
  function Padded(address: seq<Byte>): Fields {
    Fields([0x80, 0x80, 0x80, 0x80, 0], [0x80, 0], [0xFD, 5], address, [0x63, 0xDD], [1])
  }

  lemma PaddedIsWellFormed(address: seq<Byte>)
    requires |address| == MAX_SERVER_ADDRESS_BYTES
    ensures var f := Padded(address);
            WellFormed(f) && Value(f.id) == 0 && Value(f.state) == 1
  {
    var f := Padded(address);
    hide Digits;
    FiveByteZero(f.id);
    TwoBytes(f.version, 0x80, 0);
    TwoBytes(f.addressLen, 0xFD, 5);
    DigitsCons(1, [], f.state);
  }

  lemma TwoBytes(w: seq<Byte>, a: Byte, b: Byte)
    requires w == [a, b]
    ensures Digits(w) == a % 128 + 128 * (b % 128)
  {
    DigitsCons(b, [], [b]);
    DigitsCons(a, [b], w);
  }

  lemma FiveByteZero(w: seq<Byte>)
    requires w == [0x80, 0x80, 0x80, 0x80, 0]
    ensures Digits(w) == 0
  {
    hide Digits;
    TwoBytes([0x80, 0], 0x80, 0);
    DigitsCons(0x80, [0x80, 0], [0x80, 0x80, 0]);
    DigitsCons(0x80, [0x80, 0x80, 0], [0x80, 0x80, 0x80, 0]);
    DigitsCons(0x80, [0x80, 0x80, 0x80, 0], w);
  }

  lemma DigitsCons(b: Byte, rest: seq<Byte>, w: seq<Byte>)
    requires w == [b] + rest
    ensures Digits(w) == b % 128 + 128 * Digits(rest)
    ensures Digits([]) == 0
  {
    assert w[1..] == rest;
  }
}
