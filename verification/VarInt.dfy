/** VarInts: at most five bytes of seven-bit groups, low group first, high bit meaning "more follows". */
module VarInt {
  import opened Wire
  import BitOps

  const MAX_VARINT_BYTES := 5
  const WORD := 0x1_0000_0000

  /** The byte announces another one. */
  predicate More(b: Byte) {
    b >= 128
  }

  /** A complete VarInt and nothing else; redundant trailing zero groups are allowed. */
  predicate IsVarInt(w: seq<Byte>) {
    && 1 <= |w| <= MAX_VARINT_BYTES
    && !More(w[|w| - 1])
    && forall i | 0 <= i < |w| - 1 :: More(w[i])
  }

  /** The sum of (w[i] mod 128) * 128^i. */
  function Digits(w: seq<Byte>): nat {
    if w == [] then 0 else w[0] % 128 + 128 * Digits(w[1..])
  }

  /** The raw 32 bits: everything shifted past bit 31 is lost. */
  function Value(w: seq<Byte>): (n: nat)
    ensures n < WORD
  {
    Digits(w) % WORD
  }

  /** Two's complement reading of 32 bits. */
  function Signed(n: nat): (i: int)
    requires n < WORD
    ensures i == 0 <==> n == 0
    ensures 0 <= i <==> n < 0x8000_0000
    ensures 0 <= i ==> i == n
    ensures -0x8000_0000 <= i < 0x8000_0000 && i % WORD == n
  {
    if n < 0x8000_0000 then n else n - WORD
  }

  datatype Decoded = Number(value: nat, size: nat) | Truncated | TooLong

  /** How many bytes in a row announce another one. */
  function Lead(s: seq<Byte>): (n: nat)
    ensures n <= |s|
  {
    if s == [] || !More(s[0]) then 0 else 1 + Lead(s[1..])
  }

  /** What reading a VarInt off the front of `s` means. */
  function Decode(s: seq<Byte>): (d: Decoded)
    ensures d.Number? ==> 1 <= d.size <= |s| && d.size <= MAX_VARINT_BYTES && d.value < WORD
  {
    var n := Lead(s);
    if n >= MAX_VARINT_BYTES then TooLong
    else if n == |s| then Truncated
    else Number(Value(s[..n + 1]), n + 1)
  }

  lemma {:induction false} LeadMeans(s: seq<Byte>)
    ensures forall i | 0 <= i < Lead(s) :: More(s[i])
    ensures Lead(s) < |s| ==> !More(s[Lead(s)])
  {
    if s != [] && More(s[0]) {
      LeadMeans(s[1..]);
      forall i | 0 <= i < Lead(s) ensures More(s[i]) {
        if i > 0 {
          assert s[i] == s[1..][i - 1];
        }
      }
    }
  }

  /** Sound: what was read is a VarInt, and its value is what was returned. */
  lemma DecodeSound(s: seq<Byte>)
    requires Decode(s).Number?
    ensures var w := s[..Decode(s).size]; IsVarInt(w) && Decode(s).value == Value(w)
  {
    LeadMeans(s);
  }

  /** The first byte that announces no other decides where the VarInt ends. */
  lemma LeadIs(s: seq<Byte>, n: nat)
    requires n <= |s|
    requires forall i | 0 <= i < n :: More(s[i])
    requires n < |s| ==> !More(s[n])
    ensures Lead(s) == n
  {
    LeadMeans(s);
  }

  /** A run of announcing bytes as long as any VarInt decides the reading, and so does one cut short. */
  lemma DecodeFails(s: seq<Byte>, n: nat)
    requires n <= |s| && (n == |s| || n >= MAX_VARINT_BYTES)
    requires forall i | 0 <= i < n :: More(s[i])
    ensures Decode(s) == if n >= MAX_VARINT_BYTES then TooLong else Truncated
  {
    LeadMeans(s);
  }

  lemma DecodeStops(s: seq<Byte>, n: nat)
    requires n < |s| && n < MAX_VARINT_BYTES
    requires forall i | 0 <= i < n :: More(s[i])
    requires !More(s[n])
    ensures Decode(s) == Number(Value(s[..n + 1]), n + 1)
  {
    LeadIs(s, n);
  }

  /** Complete, and blind to what follows: a VarInt is read back whole whatever bytes come after it. */
  lemma DecodeComplete(w: seq<Byte>, rest: seq<Byte>)
    requires IsVarInt(w)
    ensures Decode(w + rest) == Number(Value(w), |w|)
  {
    var s := w + rest;
    forall i | 0 <= i < |w| - 1 ensures More(s[i]) {
      assert s[i] == w[i];
    }
    LeadIs(s, |w| - 1);
    assert s[..|w|] == w;
  }

  /** No proper prefix of a VarInt is one: cutting it short always reads as truncated. */
  lemma DecodeCut(w: seq<Byte>, k: nat)
    requires IsVarInt(w) && k < |w|
    ensures Decode(w[..k]) == Truncated
  {
    LeadIs(w[..k], k);
  }

  /** Success does not depend on what is appended. */
  lemma DecodeStable(s: seq<Byte>, rest: seq<Byte>)
    requires Decode(s).Number?
    ensures Decode(s + rest) == Decode(s)
  {
    DecodeSound(s);
    var n := Decode(s).size;
    DecodeComplete(s[..n], s[n..] + rest);
    DecodeComplete(s[..n], s[n..]);
    assert s[..n] + (s[n..] + rest) == s + rest;
    assert s[..n] + s[n..] == s;
  }

  /** Only a truncated reading can be changed by what is appended. */
  lemma DecodeDecided(s: seq<Byte>, rest: seq<Byte>)
    requires Decode(s) != Truncated
    ensures Decode(s + rest) == Decode(s)
  {
    if Decode(s).Number? {
      DecodeStable(s, rest);
    } else {
      LeadMeans(s);
      forall i | 0 <= i < MAX_VARINT_BYTES ensures More((s + rest)[i]) {
        assert (s + rest)[i] == s[i];
      }
      DecodeFails(s + rest, MAX_VARINT_BYTES);
    }
  }

  // ---- Canonical encoding ------------------------------------------------

  function Encode(n: nat): (w: seq<Byte>)
    ensures |w| >= 1
    decreases n
  {
    if n < 128 then [n]
    else [n % 128 + 128] + Encode(n / 128)
  }

  /** The encoding is a byte string announcing its own end, with the original digits. */
  lemma {:induction false} EncodeShape(n: nat)
    ensures var w := Encode(n);
            && Digits(w) == n
            && !More(w[|w| - 1])
            && (forall i | 0 <= i < |w| - 1 :: More(w[i]))
  {
    if n >= 128 {
      EncodeShape(n / 128);
      var w, v := Encode(n), Encode(n / 128);
      assert w[1..] == v;
      forall i | 0 <= i < |w| - 1 ensures More(w[i]) {
        if i > 0 {
          assert w[i] == v[i - 1];
        }
      }
      assert (n % 128 + 128) % 128 == n % 128;
    }
  }

  lemma {:induction false} EncodeLength(n: nat, k: nat)
    requires k >= 1
    ensures |Encode(n)| <= k <==> n < Pow128(k)
  {
    if n < 128 {
      Pow128Positive(k - 1);
    } else if k > 1 {
      EncodeLength(n / 128, k - 1);
    }
  }

  /** Every 32-bit value survives a round trip, whatever follows on the wire. */
  lemma RoundTrip(n: nat, rest: seq<Byte>)
    requires n < WORD
    ensures IsVarInt(Encode(n))
    ensures Value(Encode(n)) == n
    ensures Decode(Encode(n) + rest) == Number(n, |Encode(n)|)
  {
    EncodeShape(n);
    assert Pow128(5) == 0x8_0000_0000;
    EncodeLength(n, 5);
    DecodeComplete(Encode(n), rest);
  }

  // ---- The accumulating loop's arithmetic --------------------------------

  function Pow128(k: nat): nat {
    if k == 0 then 1 else 128 * Pow128(k - 1)
  }

  lemma Pow128Positive(k: nat)
    ensures Pow128(k) >= 1
  {
  }

  lemma {:induction false} DigitsBound(w: seq<Byte>)
    ensures Digits(w) < Pow128(|w|)
  {
    if w != [] {
      DigitsBound(w[1..]);
    }
  }

  lemma {:induction false} DigitsSnoc(w: seq<Byte>, b: Byte)
    ensures Digits(w + [b]) == Digits(w) + Pow128(|w|) * (b % 128)
  {
    if w == [] {
      assert [b][1..] == [];
    } else {
      DigitsSnoc(w[1..], b);
      assert (w + [b])[1..] == w[1..] + [b];
    }
  }

  lemma TopGroup(v: nat, b: Byte)
    requires v < 0x1000_0000
    ensures (v + 0x1000_0000 * (b % 128)) % WORD == v + 0x1000_0000 * (b % 16)
  {
    var hi := b % 128 / 16;
    assert b % 128 == 16 * hi + b % 16;
    assert v + 0x1000_0000 * (b % 128) == v + 0x1000_0000 * (b % 16) + WORD * hi;
  }

  /** One turn of either loop: or-ing a group in is adding its digit, modulo 2^32. */
  lemma OrStep(value: nat, w: seq<Byte>, b: Byte, r: nat)
    requires |w| < MAX_VARINT_BYTES
    requires value == Digits(w)
    requires BitOps.Added(value, b, |w|, r)
    ensures r == Value(w + [b])
    ensures |w| < 4 ==> Value(w + [b]) == Digits(w + [b])
  {
    DigitsBound(w);
    Powers();
    if |w| < 4 {
      NextDigit(w, b);
    } else {
      LastDigit(w, b);
    }
  }

  lemma DigitsOfNothing()
    ensures Digits([]) == 0
  {
  }

  lemma AddGroup(before: nat, tail: seq<Byte>, i: nat, after: nat)
    requires i < MAX_VARINT_BYTES && i < |tail|
    requires before == Digits(tail[..i])
    requires BitOps.Added(before, tail[i], i, after)
    ensures after == Value(tail[..i + 1])
    ensures i < 4 ==> after == Digits(tail[..i + 1])
  {
    OrStep(before, tail[..i], tail[i], after);
    assert tail[..i + 1] == tail[..i] + [tail[i]];
  }

  lemma Powers()
    ensures Pow128(0) == 1 && Pow128(1) == 0x80 && Pow128(2) == 0x4000 && Pow128(3) == 0x20_0000
    ensures Pow128(4) == 0x1000_0000 && Pow128(5) == 0x8_0000_0000
  {
  }

  lemma NextDigit(w: seq<Byte>, b: Byte)
    requires |w| < 4
    ensures var d := Value(w + [b]);
            && d == Digits(w + [b])
            && (|w| == 0 ==> d == Digits(w) + b % 128)
            && (|w| == 1 ==> d == Digits(w) + 0x80 * (b % 128))
            && (|w| == 2 ==> d == Digits(w) + 0x4000 * (b % 128))
            && (|w| == 3 ==> d == Digits(w) + 0x20_0000 * (b % 128))
  {
    hide Digits, Pow128;
    DigitsSnoc(w, b);
    DigitsBound(w + [b]);
    Powers();
    PowMonotone(|w| + 1, 4);
    SmallMod(Digits(w + [b]));
  }

  lemma SmallMod(n: nat)
    requires n < WORD
    ensures n % WORD == n
  {
  }

  lemma LastDigit(w: seq<Byte>, b: Byte)
    requires |w| == 4
    ensures Value(w + [b]) == Digits(w) + 0x1000_0000 * (b % 16)
  {
    hide Digits, Pow128;
    DigitsSnoc(w, b);
    DigitsBound(w);
    Powers();
    TopGroup(Digits(w), b);
  }

  lemma {:induction false} PowMonotone(j: nat, k: nat)
    requires j <= k
    ensures Pow128(j) <= Pow128(k)
  {
    if j < k {
      PowMonotone(j, k - 1);
    }
  }
}
