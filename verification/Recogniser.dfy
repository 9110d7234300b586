/** The in-kernel handshake check: byte reads bounded by the physical end of the packet only. */
module Recogniser {
  import opened Wire
  import opened VarInt
  import opened HandshakeGrammar
  import BitOps

  /** The farthest any run reads past its start: prefix, three VarInts, address, port and state. */
  const REACH := 5 + 15 + MAX_SERVER_ADDRESS_BYTES + 2 + 5

  /**
    Reads a VarInt at `offset`: its raw 32 bits and how many bytes it took. `reached` is one past the
    last byte read.
   */
  method ReadVarInt(packet: seq<Byte>, offset: nat)
    returns (r: Result<(nat, nat), Action>, ghost reached: nat)
    ensures match r
            case Ok((value, n)) => Decode(Tail(packet, offset)) == Number(value, n)
            case Err(action) => action == Drop && !Decode(Tail(packet, offset)).Number?
    ensures offset <= reached <= offset + 5
    ensures reached == offset || reached <= |packet|
    ensures r.Ok? ==> reached == offset + r.value.1
  {
    hide Decode, Value, Digits, BitOps.Added;
    ghost var tail := Tail(packet, offset);
    DigitsOfNothing();
    var value: nat := 0;
    reached := offset;
    for i := 0 to MAX_VARINT_BYTES
      invariant i <= |tail|
      invariant forall j | 0 <= j < i :: More(tail[j])
      invariant value < WORD
      invariant i < 5 ==> value == Digits(tail[..i])
      invariant reached == offset + i
    {
      var byte := ByteAt(packet, offset + i);
      if byte.Err? {
        DecodeFails(tail, i);
        return Err(byte.error), reached;
      }
      var b := byte.value;
      reached := offset + i + 1;
      ghost var before := value;
      value := BitOps.OrIn(value, b, i);
      AddGroup(before, tail, i, value);
      var more := BitOps.Continues(b);
      if !more {
        DecodeStops(tail, i);
        return Ok((value, i + 1)), reached;
      }
    }
    DecodeFails(tail, MAX_VARINT_BYTES);
    r := Err(Drop);
  }

  // ---- The check itself --------------------------------------------------

  /** `address_len as usize & ADDRESS_LEN_MASK` */
  const ADDRESS_LEN_MASK: bv32 := 0x3FF

  /** The bytes at `offset`, up to `len` of them as declared, open with this frame. */
  predicate OpensWith(packet: seq<Byte>, offset: nat, len: nat, fr: Frame) {
    IsFrame(fr) && Bytes(fr) <= Window(packet, offset, len)
  }

  /** Nothing was read outside the one frame the declared payload opens with. */
  ghost predicate Confined(packet: seq<Byte>, offset: nat, len: nat, reached: nat) {
    exists fr :: OpensWith(packet, offset, len, fr) && reached <= offset + |Bytes(fr)|
  }

  /**
    Accepts exactly the payloads that open with a complete handshake frame, although each read is
    bounded by the physical end of the packet and not by the declared length.
   */
  method CheckHandshake(packet: seq<Byte>, offset: nat, len: nat)
    returns (r: Result<(), Action>, ghost reached: nat)
    ensures r.Ok? <==> StartsWithHandshake(Window(packet, offset, len))
    ensures r.Err? ==> r.error == Drop
    ensures r.Ok? ==> Confined(packet, offset, len, reached)
    ensures offset <= reached <= offset + REACH
    ensures reached == offset || reached <= |packet|
  {
    hide Decode, Value, Digits, IsVarInt, IsFrame, WellFormed, IsHandshake, Bytes, Flatten, Tail, Window,
         StartsWithHandshake, Confined, OpensWith;
    ghost var fr := Foresee(packet, offset, len);
    ghost var good := StartsWithHandshake(Window(packet, offset, len));

    var prefix, t0 := ReadVarInt(packet, offset);
    reached := t0;
    if prefix.Err? {
      return Err(prefix.error), reached;
    }
    var frameLen, prefixLen := prefix.value.0, prefix.value.1;
    if frameLen == 0 || frameLen > MAX_HANDSHAKE_LEN {
      return Err(Drop), reached;
    }
    if prefixLen + frameLen > len {
      return Err(Drop), reached;
    }

    var body := offset + prefixLen;
    var pos := 0;

    var id, t1 := ReadVarInt(packet, body + pos);
    reached := if t1 > reached then t1 else reached;
    if id.Err? {
      return Err(id.error), reached;
    }
    var packetId := id.value.0;
    if packetId != 0 {
      return Err(Drop), reached;
    }
    pos := pos + id.value.1;

    ghost var versionAt := pos;
    var version, t2 := ReadVarInt(packet, body + pos);
    reached := if t2 > reached then t2 else reached;
    if version.Err? {
      return Err(version.error), reached;
    }
    pos := pos + version.value.1;

    ghost var lengthAt := pos;
    var length, t3 := ReadVarInt(packet, body + pos);
    reached := if t3 > reached then t3 else reached;
    if length.Err? {
      return Err(length.error), reached;
    }
    var addressLen := length.value.0;
    if addressLen > MAX_SERVER_ADDRESS_BYTES {
      return Err(Drop), reached;
    }
    var masked := MaskLength(addressLen);
    pos := pos + length.value.1 + masked;

    ghost var portAt := pos;
    var port := ByteAt(packet, body + pos + 1);
    if port.Err? {
      return Err(port.error), reached;
    }
    reached := body + pos + 2;
    pos := pos + 2;

    var state, t4 := ReadVarInt(packet, body + pos);
    reached := if t4 > reached then t4 else reached;
    if state.Err? {
      return Err(state.error), reached;
    }
    var nextState := state.value.0;
    if !(1 <= nextState <= 3) {
      return Err(Drop), reached;
    }
    pos := pos + state.value.1;

    if pos != frameLen {
      return Err(Drop), reached;
    }
    ghost var layout := Layout(prefixLen, id.value.1, version.value.1, length.value.1, addressLen, state.value.1);
    LayoutIsFrame(packet, offset, len, layout, frameLen, version.value.0, nextState, reached);
    r := Ok(());
  }

  /** Bytes that physically follow a truncated frame never complete it, wherever it was cut. */
  lemma PaddingNeverCompletes(fr: Frame, packet: seq<Byte>, offset: nat, len: nat)
    requires IsFrame(fr) && len < |Bytes(fr)|
    requires offset + len <= |packet| && packet[offset..offset + len] == Bytes(fr)[..len]
    ensures !StartsWithHandshake(Window(packet, offset, len))
  {
    assert Window(packet, offset, len) == Bytes(fr)[..len];
    RecognisedExactlyWhenComplete(fr, Bytes(fr), len);
  }

  /** The mask bounds any length, and leaves one that passed the check before it alone. */
  method MaskLength(length: nat) returns (masked: nat)
    requires length < WORD
    ensures masked <= 0x3FF
    ensures length <= MAX_SERVER_ADDRESS_BYTES ==> masked == length
  {
    var bits := length as bv32;
    masked := (bits & ADDRESS_LEN_MASK) as nat;
    BitOps.WordOf(length);
    MaskValue(length, bits);
  }

  lemma MaskValue(length: nat, bits: bv32)
    requires bits as nat == length
    ensures (bits & ADDRESS_LEN_MASK) as nat <= 0x3FF
    ensures length <= MAX_SERVER_ADDRESS_BYTES ==> (bits & ADDRESS_LEN_MASK) as nat == length
  {
    MaskBounds(bits);
    if length <= MAX_SERVER_ADDRESS_BYTES {
      MaskNoOp(bits);
    }
  }

  lemma MaskNoOp(length: bv32)
    requires length as nat <= MAX_SERVER_ADDRESS_BYTES
    ensures length & ADDRESS_LEN_MASK == length
  {
  }

  lemma MaskBounds(length: bv32)
    ensures (length & ADDRESS_LEN_MASK) as nat <= 0x3FF
  {
  }

  // ---- Completeness: what the reads must return on a handshake ------------

  /** On a payload that opens with a frame, every read is decided by that frame. */
  lemma Foresee(packet: seq<Byte>, offset: nat, len: nat) returns (fr: Frame)
    ensures StartsWithHandshake(Window(packet, offset, len)) ==>
              && OpensWith(packet, offset, len, fr)
              && ReadsLike(packet, offset, fr)
              && |Bytes(fr)| <= len
  {
    if StartsWithHandshake(Window(packet, offset, len)) {
      fr :| IsFrame(fr) && Bytes(fr) <= Window(packet, offset, len);
      FrameReads(packet, offset, fr);
    } else {
      fr := Frame([], Fields([], [], [], [], [], []));
    }
  }

  predicate ReadsLike(packet: seq<Byte>, offset: nat, fr: Frame) {
    var f, body := fr.fields, offset + |fr.prefix|;
    && Decode(Tail(packet, offset)) == Number(|Flatten(f)|, |fr.prefix|)
    && 1 <= |Flatten(f)| <= MAX_HANDSHAKE_LEN
    && |Bytes(fr)| == |fr.prefix| + |Flatten(f)|
    && |Flatten(f)| == StateAt(f) + |f.state|
    && offset + |Bytes(fr)| <= |packet|
    && Decode(Tail(packet, body)) == Number(0, |f.id|)
    && Decode(Tail(packet, body + VersionAt(f))) == Number(Value(f.version), |f.version|)
    && Decode(Tail(packet, body + AddressLenAt(f))) == Number(|f.address|, |f.addressLen|)
    && |f.address| <= MAX_SERVER_ADDRESS_BYTES
    && |f.port| == 2
    && Decode(Tail(packet, body + StateAt(f))) == Number(Value(f.state), |f.state|)
    && 1 <= Value(f.state) <= 3
  }

  lemma FrameReads(packet: seq<Byte>, offset: nat, fr: Frame)
    requires IsFrame(fr) && Bytes(fr) <= Tail(packet, offset)
    ensures ReadsLike(packet, offset, fr)
  {
    hide Decode, Value, IsVarInt;
    var tail, p, f := Tail(packet, offset), |fr.prefix|, fr.fields;
    FrameSlices(fr, tail);
    FieldsDecode(f, tail[p..]);
    assert Tail(tail, 0) == tail;
    TailTail(packet, offset, p, 0);
    TailTail(packet, offset, p, VersionAt(f));
    TailTail(packet, offset, p, AddressLenAt(f));
    TailTail(packet, offset, p, StateAt(f));
  }

  lemma TailTail(packet: seq<Byte>, offset: nat, p: nat, k: nat)
    requires offset + p + k <= |packet|
    ensures Tail(Tail(packet, offset)[p..], k) == Tail(packet, offset + p + k)
  {
  }

  // ---- Soundness: what was read is a handshake -----------------------------

  /** The sizes of the pieces read. */
  datatype Layout = Layout(prefix: nat, id: nat, version: nat, addressLen: nat, address: nat, state: nat)

  lemma ReadBack(packet: seq<Byte>, offset: nat, i: nat)
    requires offset <= |packet|
    requires Decode(Tail(packet, offset + i)).Number?
    ensures var d, s := Decode(Tail(packet, offset + i)), packet[offset..];
            && i + d.size <= |s|
            && IsVarInt(s[i..i + d.size])
            && Value(s[i..i + d.size]) == d.value
  {
    var s, d := packet[offset..], Decode(Tail(packet, offset + i));
    DecodeSound(Tail(packet, offset + i));
    assert Tail(packet, offset + i)[..d.size] == s[i..i + d.size];
  }

  lemma LayoutIsFrame(packet: seq<Byte>, offset: nat, len: nat, l: Layout, frameLen: nat,
                      version: nat, nextState: nat, reached: nat)
    requires 1 <= frameLen <= MAX_HANDSHAKE_LEN && l.prefix + frameLen <= len
    requires frameLen == l.id + l.version + l.addressLen + l.address + 2 + l.state
    requires Decode(Tail(packet, offset)) == Number(frameLen, l.prefix)
    requires var body := offset + l.prefix;
             && Decode(Tail(packet, body)) == Number(0, l.id)
             && Decode(Tail(packet, body + l.id)) == Number(version, l.version)
             && Decode(Tail(packet, body + l.id + l.version)) == Number(l.address, l.addressLen)
             && Decode(Tail(packet, body + frameLen - l.state)) == Number(nextState, l.state)
    requires l.address <= MAX_SERVER_ADDRESS_BYTES && 1 <= nextState <= 3
    requires reached <= offset + l.prefix + frameLen
    ensures StartsWithHandshake(Window(packet, offset, len))
    ensures Confined(packet, offset, len, reached)
  {
    hide Decode, Value, IsVarInt, Flatten;
    var body := offset + l.prefix;
    var i2 := l.id + l.version;
    var i3 := i2 + l.addressLen;
    var i5 := i3 + l.address + 2;
    ReadBack(packet, offset, 0);
    ReadBack(packet, body, 0);
    ReadBack(packet, body, l.id);
    ReadBack(packet, body, i2);
    ReadBack(packet, body, i5);
    var f := Carve(packet[body..], l.id, i2, i3, i5 - 2, i5, frameLen);
    CarveFlattens(packet[body..], l.id, i2, i3, i5 - 2, i5, frameLen);
    FrameInWindow(packet, offset, len, l.prefix, frameLen, f);
    assert OpensWith(packet, offset, len, Frame(packet[offset..][..l.prefix], f));
  }

  lemma FrameInWindow(packet: seq<Byte>, offset: nat, len: nat, prefixLen: nat, frameLen: nat, f: Fields)
    requires offset + prefixLen + frameLen <= |packet| && prefixLen + frameLen <= len
    requires Flatten(f) == packet[offset + prefixLen..][..frameLen]
    ensures var fr := Frame(packet[offset..][..prefixLen], f);
            Bytes(fr) <= Window(packet, offset, len) && |Bytes(fr)| == prefixLen + frameLen
  {
    hide Flatten;
    var s := packet[offset..];
    assert packet[offset + prefixLen..][..frameLen] == s[prefixLen..prefixLen + frameLen];
    Glue(s, prefixLen, prefixLen + frameLen);
  }
}
