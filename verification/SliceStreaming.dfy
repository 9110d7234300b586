/** The slice parser on growing and shrinking buffers. */
module SliceStreaming {
  import opened Wire
  import opened VarInt
  import opened HandshakeGrammar
  import opened SliceParser
  import opened SliceMeaning

  // ---- Cutting a body short, or adding to it ----------------------------------

  lemma CutVarInt(s: seq<Byte>, i: nat, w: seq<Byte>)
    requires i <= |s| && s[i..] < w && IsVarInt(w)
    ensures SignedVarInt(s[i..]) == Err(UnexpectedEof)
  {
    DecodeCut(w, |s| - i);
    assert w[..|s| - i] == s[i..];
  }

  /** Where the cut falls among the fields. */
  lemma PrefixFields(f: Fields, k: nat)
    requires k < |Flatten(f)|
    ensures var s := Flatten(f)[..k];
            && (k < VersionAt(f) ==> s < f.id)
            && (VersionAt(f) <= k ==> f.id <= s)
            && (VersionAt(f) <= k < AddressLenAt(f) ==> s[VersionAt(f)..] < f.version)
            && (AddressLenAt(f) <= k ==> f.version <= s[VersionAt(f)..])
            && (AddressLenAt(f) <= k < AddressAt(f) ==> s[AddressLenAt(f)..] < f.addressLen)
            && (AddressAt(f) <= k ==> f.addressLen <= s[AddressLenAt(f)..])
            && (StateAt(f) <= k ==> s[StateAt(f)..] < f.state)
  {
    hide Flatten;
    var b := Flatten(f);
    FieldsSlices(f, b);
    var s := b[..k];
    PrefixField(b, k, 0, f.id);
    assert s[0..] == s;
    PrefixField(b, k, VersionAt(f), f.version);
    PrefixField(b, k, AddressLenAt(f), f.addressLen);
    PrefixField(b, k, StateAt(f), f.state);
  }

  /** The address is only ever read whole. */
  lemma PrefixAddress(f: Fields, k: nat)
    requires AddressLenAt(f) <= k < |Flatten(f)|
    ensures Between(Flatten(f)[..k][AddressLenAt(f)..], |f.addressLen|, |f.addressLen| + |f.address|)
         == if PortAt(f) <= k then Ok(f.address) else Err(UnexpectedEof)
  {
    hide Flatten;
    var b := Flatten(f);
    FieldsSlices(f, b);
    if PortAt(f) <= k {
      PrefixInner(b, k, AddressLenAt(f), |f.addressLen|, f.address);
    }
  }

  lemma PrefixInner(b: seq<Byte>, k: nat, i: nat, c: nat, w: seq<Byte>)
    requires i + c + |w| <= k <= |b| && b[i + c..i + c + |w|] == w
    ensures b[..k][i..][c..c + |w|] == w
  {
    var u := b[..k][i..];
    forall j | 0 <= j < |w| ensures u[c..c + |w|][j] == w[j] {
      assert w[j] == b[i + c..i + c + |w|][j] == b[i + c + j];
      assert u[c + j] == b[i + c + j];
    }
  }

  lemma PrefixField(b: seq<Byte>, k: nat, i: nat, w: seq<Byte>)
    requires k <= |b| && i + |w| <= |b| && b[i..i + |w|] == w
    ensures i <= k < i + |w| ==> b[..k][i..] < w
    ensures i + |w| <= k ==> w <= b[..k][i..]
  {
    if i <= k < i + |w| {
      assert b[..k][i..] == w[..k - i];
    }
    if i + |w| <= k {
      assert b[..k][i..][..|w|] == w;
    }
  }

  /** What a body cut after `k` bytes is diagnosed as: the faults that are already in it, or truncation. */
  lemma CutDiagnosis(utf8: Utf8, f: Fields, k: nat)
    requires WellFormed(f) && |f.address| < 0x8000_0000
    requires k < |Flatten(f)|
    ensures Parsed(utf8, Flatten(f)[..k])
         == if VersionAt(f) <= k && Value(f.id) != 0 then Err(WrongPacketId(Signed(Value(f.id))))
            else if PortAt(f) <= k && !utf8(f.address) then Err(InvalidUtf8)
            else Err(UnexpectedEof)
  {
    hide Decode, Value, Digits, IsVarInt, SignedVarInt, Signed, Be16, Flatten;
    var s := Flatten(f)[..k];
    FieldsSlices(f, Flatten(f));
    PrefixFields(f, k);
    assert s[0..] == s;
    if k < VersionAt(f) {
      CutVarInt(s, 0, f.id);
    } else {
      WholeVarInt(s, 0, f.id);
      if k < AddressLenAt(f) {
        CutVarInt(s, VersionAt(f), f.version);
      } else {
        WholeVarInt(s, VersionAt(f), f.version);
        if k < AddressAt(f) {
          CutVarInt(s, AddressLenAt(f), f.addressLen);
        } else {
          WholeVarInt(s, AddressLenAt(f), f.addressLen);
          PrefixAddress(f, k);
          if k >= StateAt(f) {
            CutVarInt(s, StateAt(f), f.state);
          }
        }
      }
    }
  }

  /**
    Handshake bodies are prefix-free, with exact diagnostics: cut short they are truncated, extended
    they have exactly the extra bytes trailing.
   */
  lemma ExactDiagnostics(utf8: Utf8, body: seq<Byte>, k: nat, extra: seq<Byte>)
    requires Parsed(utf8, body).Ok?
    ensures k < |body| ==> Parsed(utf8, body[..k]) == Err(UnexpectedEof)
    ensures extra != [] ==> Parsed(utf8, body + extra) == Err(TrailingBytes(|extra|))
  {
    var f := Dissect(utf8, body);
    if k < |body| {
      CutDiagnosis(utf8, f, k);
    }
    ParsedIsDiagnosis(utf8, f, body + extra);
  }

  // ---- Truncation is exactly what more bytes can still make a body -----------------

  /** `s` is a proper beginning of the body `f`, and nothing wrong can be seen in it yet. */
  ghost predicate BeginningOf(utf8: Utf8, f: Fields, s: seq<Byte>) {
    && WellFormed(f)
    && |f.address| < 0x8000_0000
    && s < Flatten(f)
    && (VersionAt(f) <= |s| ==> Value(f.id) == 0)
    && (PortAt(f) <= |s| ==> utf8(f.address))
  }

  /** UnexpectedEof is reported for exactly the proper beginnings of bodies that show no fault so far. */
  lemma EofExactly(utf8: Utf8, s: seq<Byte>)
    ensures Parsed(utf8, s) == Err(UnexpectedEof) <==> exists f :: BeginningOf(utf8, f, s)
  {
    hide Parsed, Value, WellFormed, Flatten;
    if Parsed(utf8, s) == Err(UnexpectedEof) {
      var f := Completion(utf8, s);
      assert s == Flatten(f)[..|s|];
      CutDiagnosis(utf8, f, |s|);
      assert BeginningOf(utf8, f, s);
    }
    if f :| BeginningOf(utf8, f, s) {
      assert s == Flatten(f)[..|s|];
      CutDiagnosis(utf8, f, |s|);
    }
  }

  lemma ZeroVarInt()
    ensures IsVarInt([0]) && Value([0]) == 0
  {
    assert [0][1..] == [];
  }

  /** A zero byte completes any truncated VarInt, and keeps it below 2^28. */
  lemma ClosedVarInt(t: seq<Byte>)
    requires SignedVarInt(t) == Err(UnexpectedEof)
    ensures IsVarInt(t + [0]) && Value(t + [0]) < 0x1000_0000
  {
    LeadMeans(t);
    DigitsSnoc(t, 0);
    DigitsBound(t);
    PowMonotone(|t|, 4);
    Powers();
  }

  lemma HeldLonger(s: seq<Byte>, more: seq<Byte>, i: nat, w: seq<Byte>)
    requires Holds(s, i, w)
    ensures Holds(s + more, i, w)
  {
    assert (s + more)[i..][..|w|] == s[i..][..|w|];
  }

  /** What is held stays held when bytes are added. */
  lemma StillHas(f: Fields, s: seq<Byte>, more: seq<Byte>)
    ensures HasId(f, s) ==> HasId(f, s + more)
    ensures HasVersion(f, s) ==> HasVersion(f, s + more)
    ensures HasLength(f, s) ==> HasLength(f, s + more)
    ensures HasAddress(f, s) ==> HasAddress(f, s + more)
    ensures HasPort(f, s) ==> HasPort(f, s + more)
  {
    hide Holds, Value, IsVarInt;
    if HasId(f, s) { HeldLonger(s, more, 0, f.id); }
    if HasVersion(f, s) { HeldLonger(s, more, VersionAt(f), f.version); }
    if HasLength(f, s) { HeldLonger(s, more, AddressLenAt(f), f.addressLen); }
    if HasAddress(f, s) { HeldLonger(s, more, AddressAt(f), f.address); }
    if HasPort(f, s) { HeldLonger(s, more, PortAt(f), f.port); }
  }

  /** Bytes added at the end of `s` complete whatever stood there from `i` on. */
  lemma HeldAtEnd(s: seq<Byte>, more: seq<Byte>, i: nat)
    requires i <= |s|
    ensures Holds(s + more, i, s[i..] + more)
    ensures i + |s[i..] + more| == |s + more|
  {
    assert (s + more)[i..] == s[i..] + more;
  }

  function Zeros(n: nat): (z: seq<Byte>)
    ensures |z| == n
  {
    seq(n, _ => 0)
  }

  /** Some body that `s` properly begins. */
  ghost predicate Completes(f: Fields, s: seq<Byte>) {
    WellFormed(f) && |f.address| < 0x8000_0000 && s < Flatten(f)
  }

  lemma CompleteState(f: Fields, s: seq<Byte>) returns (g: Fields)
    requires HasPort(f, s) && StateAt(f) <= |s|
    requires s[StateAt(f)..] == [] || SignedVarInt(s[StateAt(f)..]) == Err(UnexpectedEof)
    ensures Completes(g, s)
  {
    hide SignedVarInt, Value, IsVarInt, Holds, WellFormed, Flatten;
    var t := s[StateAt(f)..];
    Closing(t);
    g := f.(state := t + [0]);
    StillHas(g, s, [0]);
    HeldAtEnd(s, [0], StateAt(f));
    HoldingAllIsOpeningWith(g, s + [0]);
  }

  /** The empty beginning of a VarInt is completed by a zero byte too. */
  lemma Closing(t: seq<Byte>)
    requires t == [] || SignedVarInt(t) == Err(UnexpectedEof)
    ensures IsVarInt(t + [0]) && Value(t + [0]) < 0x1000_0000
  {
    if t == [] {
      ZeroVarInt();
      assert t + [0] == [0];
    } else {
      ClosedVarInt(t);
    }
  }

  lemma CompletePort(f: Fields, s: seq<Byte>) returns (g: Fields)
    requires HasAddress(f, s) && PortAt(f) <= |s| < PortAt(f) + 2
    ensures Completes(g, s)
  {
    hide SignedVarInt, Value, IsVarInt, Holds, WellFormed, Flatten;
    var more := Zeros(PortAt(f) + 2 - |s|);
    g := f.(port := s[PortAt(f)..] + more);
    StillHas(g, s, more);
    HeldAtEnd(s, more, PortAt(f));
    g := CompleteState(g, s + more);
  }

  lemma CompleteAddress(f: Fields, s: seq<Byte>) returns (g: Fields)
    requires HasLength(f, s) && Value(f.addressLen) < 0x8000_0000
    requires AddressAt(f) <= |s| <= AddressAt(f) + Value(f.addressLen)
    ensures Completes(g, s)
  {
    hide SignedVarInt, Value, IsVarInt, Holds, WellFormed, Flatten;
    var more := Zeros(AddressAt(f) + Value(f.addressLen) - |s|);
    g := f.(address := s[AddressAt(f)..] + more);
    StillHas(g, s, more);
    HeldAtEnd(s, more, AddressAt(f));
    g := CompletePort(g, s + more);
  }

  lemma CompleteLength(f: Fields, s: seq<Byte>) returns (g: Fields)
    requires HasVersion(f, s) && AddressLenAt(f) <= |s|
    requires s[AddressLenAt(f)..] == [] || SignedVarInt(s[AddressLenAt(f)..]) == Err(UnexpectedEof)
    ensures Completes(g, s)
  {
    hide SignedVarInt, Value, IsVarInt, Holds, WellFormed, Flatten;
    var t := s[AddressLenAt(f)..];
    Closing(t);
    g := f.(addressLen := t + [0]);
    StillHas(g, s, [0]);
    HeldAtEnd(s, [0], AddressLenAt(f));
    g := CompleteAddress(g, s + [0]);
  }

  lemma CompleteVersion(f: Fields, s: seq<Byte>) returns (g: Fields)
    requires HasId(f, s) && VersionAt(f) <= |s|
    requires s[VersionAt(f)..] == [] || SignedVarInt(s[VersionAt(f)..]) == Err(UnexpectedEof)
    ensures Completes(g, s)
  {
    hide SignedVarInt, Value, IsVarInt, Holds, WellFormed, Flatten;
    var t := s[VersionAt(f)..];
    Closing(t);
    g := f.(version := t + [0]);
    StillHas(g, s, [0]);
    HeldAtEnd(s, [0], VersionAt(f));
    g := CompleteLength(g, s + [0]);
  }

  lemma CompleteId(s: seq<Byte>) returns (g: Fields)
    requires SignedVarInt(s) == Err(UnexpectedEof)
    ensures Completes(g, s)
  {
    hide SignedVarInt, Value, IsVarInt, Holds, WellFormed, Flatten;
    Closing(s);
    g := Fields(s + [0], [], [], [], [], []);
    assert s[0..] == s;
    HeldAtEnd(s, [0], 0);
    g := CompleteVersion(g, s + [0]);
  }

  /** A truncated buffer is completed at the field it was truncated in. */
  lemma Completion(utf8: Utf8, s: seq<Byte>) returns (f: Fields)
    requires Parsed(utf8, s) == Err(UnexpectedEof)
    ensures Completes(f, s)
  {
    hide SignedVarInt, ReadMcString, Value, IsVarInt, Be16, Holds, Completes;
    if SignedVarInt(s) == Err(UnexpectedEof) {
      f := CompleteId(s);
    } else {
      f := FindId(s);
      if SignedVarInt(s[VersionAt(f)..]) == Err(UnexpectedEof) {
        f := CompleteVersion(f, s);
      } else {
        f := FindVersion(f, s);
        f := CompletionAfterVersion(utf8, f, s);
      }
    }
  }

  lemma CompletionAfterVersion(utf8: Utf8, f: Fields, s: seq<Byte>) returns (g: Fields)
    requires HasVersion(f, s) && Parsed(utf8, s) == Err(UnexpectedEof)
    ensures Completes(g, s)
  {
    hide SignedVarInt, Value, IsVarInt, Be16, Holds, Completes;
    IdRead(f, s);
    VersionRead(f, s);
    if SignedVarInt(s[AddressLenAt(f)..]) == Err(UnexpectedEof) {
      g := CompleteLength(f, s);
    } else {
      g := FindLength(f, s);
      LengthRead(g, s);
      if AddressAt(g) + Value(g.addressLen) > |s| {
        g := CompleteAddress(g, s);
      } else {
        g := FindAddress(g, s);
        g := CompletionAfterAddress(utf8, g, s);
      }
    }
  }

  lemma CompletionAfterAddress(utf8: Utf8, f: Fields, s: seq<Byte>) returns (g: Fields)
    requires HasAddress(f, s) && Parsed(utf8, s) == Err(UnexpectedEof)
    ensures Completes(g, s)
  {
    hide SignedVarInt, ReadMcString, Value, IsVarInt, Be16, Holds, Completes;
    IdRead(f, s);
    VersionRead(f, s);
    AddressRead(utf8, f, s);
    if PortAt(f) + 2 > |s| {
      g := CompletePort(f, s);
    } else {
      g := FindState(f, s);
      g := CompleteState(g, s);
    }
  }

  // ---- Streaming: what more data can change --------------------------------------

  /** What a result becomes when `extra > 0` bytes are appended; a truncated buffer is left undecided. */
  function Extended(r: Result<Handshake, ParseError>, extra: nat): Result<Handshake, ParseError>
    requires r != Err(UnexpectedEof)
  {
    match r
    case Ok(_) => Err(TrailingBytes(extra))
    case Err(InvalidNextState(_)) => Err(TrailingBytes(extra))
    case Err(TrailingBytes(k)) => Err(TrailingBytes(k + extra))
    case Err(e) => Err(e)
  }

  lemma VarIntDecided(s: seq<Byte>, more: seq<Byte>, i: nat)
    requires i <= |s| && SignedVarInt(s[i..]) != Err(UnexpectedEof)
    ensures SignedVarInt((s + more)[i..]) == SignedVarInt(s[i..])
  {
    DecodeDecided(s[i..], more);
    assert (s + more)[i..] == s[i..] + more;
  }

  lemma StringDecided(utf8: Utf8, s: seq<Byte>, more: seq<Byte>, i: nat)
    requires i <= |s| && ReadMcString(utf8, s[i..]) != Err(UnexpectedEof)
    ensures ReadMcString(utf8, (s + more)[i..]) == ReadMcString(utf8, s[i..])
  {
    hide SignedVarInt;
    VarIntDecided(s, more, i);
    var r := SignedVarInt(s[i..]);
    if r.Ok? && r.value.0 >= 0 {
      var lo, hi := r.value.1, r.value.0 + r.value.1;
      assert hi <= |s[i..]| ==> (s + more)[i..][lo..hi] == s[i..][lo..hi];
    }
  }

  /**
    Every diagnosis but UnexpectedEof is final: more data leaves it as it is, or only adds to the count
    of trailing bytes.
   */
  lemma OnlyEofIsUndecided(utf8: Utf8, s: seq<Byte>, more: seq<Byte>)
    requires Parsed(utf8, s) != Err(UnexpectedEof) && more != []
    ensures Parsed(utf8, s + more) == Extended(Parsed(utf8, s), |more|)
  {
    hide SignedVarInt, ReadMcString, Be16;
    var t := s + more;
    assert s[0..] == s && t[0..] == t;
    VarIntDecided(s, more, 0);
    var pid := SignedVarInt(s);
    if pid.Ok? && pid.value.0 == 0 {
      var i1 := pid.value.1;
      VarIntDecided(s, more, i1);
      var version := SignedVarInt(s[i1..]);
      if version.Ok? {
        var i2 := i1 + version.value.1;
        StringDecided(utf8, s, more, i2);
        var address := ReadMcString(utf8, s[i2..]);
        if address.Ok? {
          var i4 := i2 + address.value.1;
          assert t[i4..i4 + 2] == s[i4..i4 + 2];
          VarIntDecided(s, more, i4 + 2);
        }
      }
    }
  }

  lemma VarIntNeverEof(s: seq<Byte>)
    requires |s| >= MAX_VARINT_BYTES
    ensures SignedVarInt(s) != Err(UnexpectedEof)
    ensures SignedVarInt(s).Ok? ==> SignedVarInt(s).value.1 <= MAX_VARINT_BYTES
    ensures SignedVarInt(s).Ok? ==> SignedVarInt(s).value.0 < 0x8000_0000
  {
  }

  /** And UnexpectedEof is never final: past the longest conceivable body no buffer gets it. */
  lemma EofIsNeverFinal(utf8: Utf8, s: seq<Byte>)
    requires |s| >= 5 + 5 + 5 + 0x8000_0000 + 2 + 5
    ensures Parsed(utf8, s) != Err(UnexpectedEof)
  {
    hide SignedVarInt, ReadMcString, Be16;
    VarIntNeverEof(s);
    var pid := SignedVarInt(s);
    if pid.Ok? && pid.value.0 == 0 {
      var i1 := pid.value.1;
      VarIntNeverEof(s[i1..]);
      var version := SignedVarInt(s[i1..]);
      if version.Ok? {
        var i2 := i1 + version.value.1;
        StringNeverEof(utf8, s[i2..]);
        var address := ReadMcString(utf8, s[i2..]);
        if address.Ok? {
          VarIntNeverEof(s[i2 + address.value.1 + 2..]);
        }
      }
    }
  }

  lemma StringNeverEof(utf8: Utf8, s: seq<Byte>)
    requires |s| >= 5 + 0x8000_0000
    ensures ReadMcString(utf8, s) != Err(UnexpectedEof)
    ensures ReadMcString(utf8, s).Ok? ==> ReadMcString(utf8, s).value.1 < 5 + 0x8000_0000
  {
    hide SignedVarInt;
    VarIntNeverEof(s);
  }
}
