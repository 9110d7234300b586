/** Packet memory: bytes, big-endian fields, XDP actions and the one bounds rule every read rests on. */
module Wire {
  type Byte = b: int | 0 <= b < 256

  /** The XDP actions the filter can return. */
  datatype Action = Aborted | Drop | Pass

  datatype Result<+T, +E> = Ok(value: T) | Err(error: E) {
    predicate IsFailure() {
      Err?
    }

    function PropagateFailure<U>(): Result<U, E>
      requires Err?
    {
      Err(error)
    }

    function Extract(): T
      requires Ok?
    {
      value
    }
  }

  function Be16(hi: Byte, lo: Byte): (n: nat)
    ensures n < 0x1_0000
  {
    256 * hi + lo
  }

  function Be32(b: seq<Byte>): (n: nat)
    requires |b| == 4
  {
    0x1_0000 * Be16(b[0], b[1]) + Be16(b[2], b[3])
  }

  // ---- Network byte order ----------------------------------------------------------

  /** The number a byte string of any length spells, high byte first. */
  function BigEndian(b: seq<Byte>): nat {
    if b == [] then 0 else 256 * BigEndian(b[..|b| - 1]) + b[|b| - 1]
  }

  lemma BigEndianPair(b: seq<Byte>)
    requires |b| == 2
    ensures Be16(b[0], b[1]) == BigEndian(b)
  {
    var c := b[..1];
    assert c[..0] == [];
    assert BigEndian(c) == b[0];
  }

  lemma BigEndianQuad(b: seq<Byte>)
    requires |b| == 4
    ensures Be32(b) == BigEndian(b)
  {
    var c := b[..3];
    BigEndianPair(c[..2]);
    assert BigEndian(c) == 256 * BigEndian(c[..2]) + b[2];
    assert BigEndian(b) == 256 * BigEndian(c) + b[3];
  }

  /** Strings of one length spell different numbers. */
  lemma {:induction false} BigEndianInjective(b: seq<Byte>, c: seq<Byte>)
    requires |b| == |c|
    ensures BigEndian(b) == BigEndian(c) <==> b == c
  {
    if b != [] {
      var n := |b| - 1;
      BigEndianInjective(b[..n], c[..n]);
      assert b == b[..n] + [b[n]] && c == c[..n] + [c[n]];
    }
  }

  /** The four octets of an address can be read back off its number, and no two addresses share one. */
  lemma Octets(b: seq<Byte>, c: seq<Byte>)
    requires |b| == 4 && |c| == 4
    ensures Be32(b) / 0x100_0000 == b[0] && Be32(b) / 0x1_0000 % 256 == b[1]
    ensures Be32(b) / 0x100 % 256 == b[2] && Be32(b) % 256 == b[3]
    ensures Be32(b) == Be32(c) <==> b == c
  {
    OctetsOf(b);
    OctetsOf(c);
  }

  lemma OctetsOf(b: seq<Byte>)
    requires |b| == 4
    ensures Be32(b) / 0x100_0000 == b[0] && Be32(b) / 0x1_0000 % 256 == b[1]
    ensures Be32(b) / 0x100 % 256 == b[2] && Be32(b) % 256 == b[3]
  {
    var n := Be32(b);
    assert n / 0x1_0000 == Be16(b[0], b[1]);
    assert n / 0x100 == 0x100 * Be16(b[0], b[1]) + b[2];
  }

  /** `b >> 4` */
  function HighNibble(b: Byte): (n: nat)
    ensures n < 16
  {
    b / 16
  }

  /** `b & 0x0F` */
  function LowNibble(b: Byte): (n: nat)
    ensures n < 16
  {
    b % 16
  }

  /** The bounds rule: `size` bytes at `offset` are readable when they end inside the packet. */
  function PtrAt(packet: seq<Byte>, offset: nat, size: nat): Result<(), Action> {
    if offset + size > |packet| then Err(Aborted) else Ok(())
  }

  /** One byte; running off the end is a drop, not an abort. */
  function ByteAt(packet: seq<Byte>, offset: nat): Result<Byte, Action> {
    if PtrAt(packet, offset, 1).Ok? then Ok(packet[offset]) else Err(Drop)
  }

  /** What physically follows `offset`; nothing when `offset` is past the end. */
  function Tail(packet: seq<Byte>, offset: nat): seq<Byte> {
    if offset <= |packet| then packet[offset..] else []
  }

  /** The part of a declared window of `len` bytes that physically exists. */
  function Window(packet: seq<Byte>, offset: nat, len: nat): seq<Byte> {
    var tail := Tail(packet, offset);
    if len <= |tail| then tail[..len] else tail
  }
}
