/** The user-space parser over slices: a handshake body, packet ID onward, with diagnostics. */
module SliceParser {
  import opened Wire
  import opened VarInt
  import opened HandshakeGrammar
  import BitOps

  datatype NextState = Status | Login

  datatype Handshake = Handshake(
    protocolVersion: int, serverAddress: seq<Byte>, serverPort: nat, nextState: NextState)

  datatype ParseError =
    | UnexpectedEof
    | VarIntTooLong
    | WrongPacketId(id: int)
    | InvalidUtf8
    | InvalidNextState(state: int)
    | NegativeLength(length: int)
    | InvalidPort(bytes: seq<Byte>)
    | TrailingBytes(count: nat)

  /** Which byte strings the platform accepts as UTF-8. */
  type Utf8 = seq<Byte> -> bool

  /** `buf.get(lo..hi)`: running out of bytes is an error, not a panic. */
  function Between(buf: seq<Byte>, lo: nat, hi: nat): Result<seq<Byte>, ParseError> {
    if lo <= hi <= |buf| then Ok(buf[lo..hi]) else Err(UnexpectedEof)
  }

  // ---- VarInts -------------------------------------------------------------

  /** What reading a signed VarInt off the front of `buf` means. */
  function SignedVarInt(buf: seq<Byte>): (r: Result<(int, nat), ParseError>)
    ensures r.Ok? ==> 1 <= r.value.1 <= |buf|
    ensures r.Err? ==> r.error.UnexpectedEof? || r.error.VarIntTooLong?
  {
    match Decode(buf)
    case Number(value, size) => Ok((Signed(value), size))
    case Truncated => Err(UnexpectedEof)
    case TooLong => Err(VarIntTooLong)
  }

  /** The loop; `num` holds the bits of the `i32`. */
  method ReadVarInt(buf: seq<Byte>) returns (r: Result<(int, nat), ParseError>)
    ensures r == SignedVarInt(buf)
  {
    hide Decode, Value, Digits, BitOps.Added, Signed;
    var num: nat := 0;
    var bytesConsumed: nat := 0;
    var cont := true;
    DigitsOfNothing();
    // `buf.iter().take(5).enumerate()`
    var limit := if |buf| < 5 then |buf| else 5;
    for i := 0 to limit
      invariant i < MAX_VARINT_BYTES
      invariant forall j | 0 <= j < i :: More(buf[j])
      invariant num < WORD && num == Digits(buf[..i])
      invariant cont
    {
      ghost var before := num;
      num := BitOps.OrIn(num, buf[i], i);
      AddGroup(before, buf, i, num);
      cont := BitOps.Continues(buf[i]);
      if !cont {
        bytesConsumed := i + 1;
        DecodeStops(buf, i);
        break;
      }
      if i == MAX_VARINT_BYTES - 1 {
        DecodeFails(buf, MAX_VARINT_BYTES);
        return Err(VarIntTooLong);
      }
    }
    if cont {
      DecodeFails(buf, |buf|);
      return Err(UnexpectedEof);
    }
    r := Ok((Signed(num), bytesConsumed));
  }

  // ---- Strings and the body --------------------------------------------------

  /** A length-prefixed UTF-8 string and how many bytes it took, its prefix included. */
  function ReadMcString(utf8: Utf8, buf: seq<Byte>): (r: Result<(seq<Byte>, nat), ParseError>)
    ensures r.Ok? ==> 1 <= r.value.1 <= |buf|
    ensures r.Err? ==> !r.error.TrailingBytes? && !r.error.InvalidNextState? && !r.error.InvalidPort?
  {
    var (len, consumed) :- SignedVarInt(buf);
    if len < 0 then Err(NegativeLength(len))
    else
      var total := len + consumed;
      var bytes :- Between(buf, consumed, total);
      if utf8(bytes) then Ok((bytes, total)) else Err(InvalidUtf8)
  }

  /** What parsing a body means, field by field. */
  function Parsed(utf8: Utf8, buf: seq<Byte>): Result<Handshake, ParseError> {
    var (pid, versionAt) :- SignedVarInt(buf);
    if pid != 0 then Err(WrongPacketId(pid))
    else
      var (protocolVersion, n) :- SignedVarInt(buf[versionAt..]);
      var stringAt := versionAt + n;
      var (address, m) :- ReadMcString(utf8, buf[stringAt..]);
      var portAt := stringAt + m;
      var port :- Between(buf, portAt, portAt + 2);
      var (nextState, k) :- SignedVarInt(buf[portAt + 2..]);
      var end := portAt + 2 + k;
      if |buf| > end then Err(TrailingBytes(|buf| - end))
      else if nextState == 1 then Ok(Handshake(protocolVersion, address, Be16(port[0], port[1]), Status))
      else if nextState == 2 then Ok(Handshake(protocolVersion, address, Be16(port[0], port[1]), Login))
      else Err(InvalidNextState(nextState))
  }

  method ParseHandshake(utf8: Utf8, buf: seq<Byte>) returns (r: Result<Handshake, ParseError>)
    ensures r == Parsed(utf8, buf)
  {
    hide SignedVarInt, ReadMcString, Be16;
    // What has been consumed never exceeds the buffer, so each `buf.get(total..)` succeeds.
    var total := 0;
    var pid :- ReadVarInt(buf);
    total := total + pid.1;
    if pid.0 != 0 {
      return Err(WrongPacketId(pid.0));
    }

    var versionBuf := buf[total..];
    var version :- ReadVarInt(versionBuf);
    total := total + version.1;

    var addressBuf := buf[total..];
    var address :- ReadMcString(utf8, addressBuf);
    total := total + address.1;

    var requiredLen := total + 2;
    var portBuf :- Between(buf, total, requiredLen);
    // Two bytes by construction, so converting them to an array cannot fail with InvalidPort.
    var serverPort := Be16(portBuf[0], portBuf[1]);
    total := requiredLen;

    var stateBuf := buf[total..];
    var nextState :- ReadVarInt(stateBuf);
    total := total + nextState.1;
    if |buf| > total {
      return Err(TrailingBytes(|buf| - total));
    }
    match nextState.0 {
      case 1 => r := Ok(Handshake(version.0, address.0, serverPort, Status));
      case 2 => r := Ok(Handshake(version.0, address.0, serverPort, Login));
      case _ => r := Err(InvalidNextState(nextState.0));
    }
  }
}
