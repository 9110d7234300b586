/** The bit operations of the two VarInt loops, reduced to arithmetic. */
module BitOps {
  import opened Wire

  const CONTINUE_BIT: bv8 := 0x80
  const SEGMENT_BIT: bv8 := 0x7F

  lemma BitsOf(b: Byte)
    ensures (b as bv8) as nat == b
  {
    if b < 16 {
    } else if b < 32 {
    } else if b < 64 {
    } else if b < 128 {
    } else {
    }
  }

  /** Every 32-bit number survives the trip through its bits. */
  lemma WordOf(n: nat)
    requires n < 0x1_0000_0000
    ensures (n as bv32) as nat == n
  {
    var x := FindWord(n);
    WordBack(x, n);
  }

  lemma WordBack(x: bv32, n: nat)
    requires n == x as nat
    ensures n < 0x1_0000_0000 && n as bv32 == x
  {
  }

  lemma {:induction false} FindWord(n: nat) returns (x: bv32)
    requires n < 0x1_0000_0000
    ensures x as nat == n
  {
    if n == 0 {
      x := 0;
    } else {
      var half := FindWord(n / 2);
      if n % 2 == 0 {
        x := half << 1;
        DoubleEven(half, x);
      } else {
        x := (half << 1) | 1;
        DoubleOdd(half, x);
      }
    }
  }

  lemma DoubleEven(half: bv32, r: bv32)
    requires half as nat < 0x8000_0000 && r == half << 1
    ensures r as nat == 2 * (half as nat)
  {
  }

  lemma DoubleOdd(half: bv32, r: bv32)
    requires half as nat < 0x8000_0000 && r == (half << 1) | 1
    ensures r as nat == 2 * (half as nat) + 1
  {
  }

  lemma LowSeven(x: bv8)
    ensures (x & SEGMENT_BIT) as nat == x as nat % 128
  {
  }

  lemma LowFour(x: bv8)
    ensures (x & 0xF) as nat == x as nat % 16
  {
  }

  lemma TopBit(x: bv8)
    ensures x & CONTINUE_BIT != 0 <==> x as nat >= 128
  {
  }

  /** `byte & SEGMENT_BIT` is the byte's digit. */
  lemma SegmentBits(b: Byte)
    ensures (b as bv8 & SEGMENT_BIT) as nat == b % 128
  {
    BitsOf(b);
    LowSeven(b as bv8);
  }

  /** `byte & CONTINUE_BIT != 0` is the top bit. */
  lemma ContinueBit(b: Byte)
    ensures b as bv8 & CONTINUE_BIT != 0 <==> b >= 128
  {
    BitsOf(b);
    TopBit(b as bv8);
  }

  /** The two halves of a byte, as the header parsers take them. */
  lemma Nibbles(b: Byte)
    ensures (b as bv8 & 0xF) as nat == LowNibble(b)
    ensures (b as bv8 >> 4) as nat == HighNibble(b)
  {
    BitsOf(b);
    LowFour(b as bv8);
    HighFour(b as bv8);
  }

  lemma HighFour(x: bv8)
    ensures (x >> 4) as nat == x as nat / 16
  {
  }

  lemma LowBit(x: bv8)
    ensures x & 0x01 != 0 <==> x as nat % 2 == 1
  {
  }

  lemma Halved(x: bv8)
    ensures (x >> 1) as nat == x as nat / 2
  {
  }

  /** The five low bits of a byte, each as a digit of its number. */
  lemma LowBits(b: Byte)
    ensures b as bv8 & 0x01 != 0 <==> b % 2 == 1
    ensures b as bv8 & 0x02 != 0 <==> b / 2 % 2 == 1
    ensures b as bv8 & 0x04 != 0 <==> b / 4 % 2 == 1
    ensures b as bv8 & 0x08 != 0 <==> b / 8 % 2 == 1
    ensures b as bv8 & 0x10 != 0 <==> b / 16 % 2 == 1
  {
    BitsOf(b);
    var x0 := b as bv8;
    var x1, x2, x3, x4 := x0 >> 1, x0 >> 2, x0 >> 3, x0 >> 4;
    Shifts(x0, x1, x2, x3, x4);
    Halved(x0);
    Halved(x1);
    Halved(x2);
    Halved(x3);
    LowBit(x0);
    LowBit(x1);
    LowBit(x2);
    LowBit(x3);
    LowBit(x4);
  }

  lemma Shifts(x0: bv8, x1: bv8, x2: bv8, x3: bv8, x4: bv8)
    requires x1 == x0 >> 1 && x2 == x0 >> 2 && x3 == x0 >> 3 && x4 == x0 >> 4
    ensures x2 == x1 >> 1 && x3 == x2 >> 1 && x4 == x3 >> 1
    ensures x0 & 0x02 == 0 <==> x1 & 0x01 == 0
    ensures x0 & 0x04 == 0 <==> x2 & 0x01 == 0
    ensures x0 & 0x08 == 0 <==> x3 & 0x01 == 0
    ensures x0 & 0x10 == 0 <==> x4 & 0x01 == 0
  {
  }

  method Or0(bits: bv32, x: bv8) returns (r: nat)
    ensures r < 0x1_0000_0000
    ensures bits as nat < 1 ==> r == bits as nat + x as nat
  {
    r := (bits | (x as bv32)) as nat;
  }

  method Or7(bits: bv32, x: bv8) returns (r: nat)
    ensures r < 0x1_0000_0000
    ensures bits as nat < 0x80 ==> r == bits as nat + 0x80 * (x as nat)
  {
    r := (bits | ((x as bv32) << 7)) as nat;
  }

  method Or14(bits: bv32, x: bv8) returns (r: nat)
    ensures r < 0x1_0000_0000
    ensures bits as nat < 0x4000 ==> r == bits as nat + 0x4000 * (x as nat)
  {
    r := (bits | ((x as bv32) << 14)) as nat;
  }

  method Or21(bits: bv32, x: bv8) returns (r: nat)
    ensures r < 0x1_0000_0000
    ensures bits as nat < 0x20_0000 ==> r == bits as nat + 0x20_0000 * (x as nat)
  {
    r := (bits | ((x as bv32) << 21)) as nat;
  }

  /** The fifth group only has room for four of its seven bits; the other three fall off. */
  method Or28(bits: bv32, x: bv8) returns (r: nat)
    ensures r < 0x1_0000_0000
    ensures bits as nat < 0x1000_0000 ==> r == bits as nat + 0x1000_0000 * ((x & 0xF) as nat)
  {
    assert (x as bv32) << 28 == ((x & 0xF) as bv32) << 28;
    r := (bits | ((x as bv32) << 28)) as nat;
  }

  /** What `r := value | (u32::from(b & SEGMENT_BIT) << (7 * i))` comes to, as numbers. */
  predicate Added(value: nat, b: Byte, i: nat, r: nat) {
    match i
    case 0 => value < 1 ==> r == value + b % 128
    case 1 => value < 0x80 ==> r == value + 0x80 * (b % 128)
    case 2 => value < 0x4000 ==> r == value + 0x4000 * (b % 128)
    case 3 => value < 0x20_0000 ==> r == value + 0x20_0000 * (b % 128)
    case _ => value < 0x1000_0000 ==> r == value + 0x1000_0000 * (b % 16)
  }

  lemma SegmentNibble(b: Byte, x: bv8)
    requires x == b as bv8 & SEGMENT_BIT
    ensures (x & 0xF) as nat == b % 16
  {
    Nibbles(b);
    assert x & 0xF == b as bv8 & 0xF;
  }

  /** `value |= u32::from(byte & SEGMENT_BIT) << (7 * i)`, on the bits of a 32-bit `value`, turn by turn. */
  method OrIn(value: nat, b: Byte, i: nat) returns (r: nat)
    requires value < 0x1_0000_0000 && i < 5
    ensures r < 0x1_0000_0000 && Added(value, b, i, r)
  {
    var bits := value as bv32;
    WordOf(value);
    var segment := b as bv8 & SEGMENT_BIT;
    SegmentBits(b);
    SegmentNibble(b, segment);
    r := ShiftIn(bits, segment, b, i);
  }

  /** `bits | (segment << (7 * i))`, the five shifts told apart. */
  method ShiftIn(bits: bv32, segment: bv8, b: Byte, i: nat) returns (r: nat)
    requires i < 5
    requires segment as nat == b % 128 && (segment & 0xF) as nat == b % 16
    ensures r < 0x1_0000_0000 && Added(bits as nat, b, i, r)
  {
    match i {
      case 0 => r := Or0(bits, segment);
      case 1 => r := Or7(bits, segment);
      case 2 => r := Or14(bits, segment);
      case 3 => r := Or21(bits, segment);
      case 4 => r := Or28(bits, segment);
    }
  }

  /** `byte & CONTINUE_BIT != 0` */
  method Continues(b: Byte) returns (more: bool)
    ensures more <==> b >= 128
  {
    more := b as bv8 & CONTINUE_BIT != 0;
    ContinueBit(b);
  }
}
