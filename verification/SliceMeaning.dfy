/** What each result of the slice parser says about the buffer, in terms of the grammar, and nothing less. */
module SliceMeaning {
  import opened Wire
  import opened VarInt
  import opened HandshakeGrammar
  import opened SliceParser

  // ---- How far a buffer holds the fields of a body ----------------------------

  /** `s` holds `w` at `i`. */
  predicate Holds(s: seq<Byte>, i: nat, w: seq<Byte>) {
    i <= |s| && w <= s[i..]
  }

  predicate HasId(f: Fields, s: seq<Byte>) {
    IsVarInt(f.id) && Holds(s, 0, f.id)
  }

  predicate HasVersion(f: Fields, s: seq<Byte>) {
    HasId(f, s) && IsVarInt(f.version) && Holds(s, VersionAt(f), f.version)
  }

  predicate HasLength(f: Fields, s: seq<Byte>) {
    HasVersion(f, s) && IsVarInt(f.addressLen) && Holds(s, AddressLenAt(f), f.addressLen)
  }

  predicate HasAddress(f: Fields, s: seq<Byte>) {
    && HasLength(f, s)
    && Value(f.addressLen) == |f.address| < 0x8000_0000
    && Holds(s, AddressAt(f), f.address)
  }

  predicate HasPort(f: Fields, s: seq<Byte>) {
    HasAddress(f, s) && |f.port| == 2 && Holds(s, PortAt(f), f.port)
  }

  predicate HasState(f: Fields, s: seq<Byte>) {
    HasPort(f, s) && IsVarInt(f.state) && Holds(s, StateAt(f), f.state)
  }

  /** `s` opens with five bytes that all announce another one. */
  predicate Overlong(s: seq<Byte>) {
    |s| >= MAX_VARINT_BYTES && forall i | 0 <= i < MAX_VARINT_BYTES :: More(s[i])
  }

  /** An overlong VarInt where the one at `i` should be. */
  predicate OverlongAt(s: seq<Byte>, i: nat) {
    i <= |s| && Overlong(s[i..])
  }

  /** Holding all fields is opening with their concatenation. */
  lemma HoldingAllIsOpeningWith(f: Fields, s: seq<Byte>)
    ensures HasState(f, s) <==> (WellFormed(f) && |f.address| < 0x8000_0000 && Flatten(f) <= s)
    ensures HasState(f, s) ==> StateAt(f) + |f.state| == |Flatten(f)| <= |s|
  {
    hide Value, IsVarInt;
    if HasState(f, s) {
      HeldFieldsFlatten(f, s);
    } else if Flatten(f) <= s {
      FieldsSlices(f, s);
      SliceHeld(s, 0, f.id);
      SliceHeld(s, VersionAt(f), f.version);
      SliceHeld(s, AddressLenAt(f), f.addressLen);
      SliceHeld(s, AddressAt(f), f.address);
      SliceHeld(s, PortAt(f), f.port);
      SliceHeld(s, StateAt(f), f.state);
    }
  }

  lemma SliceHeld(s: seq<Byte>, i: nat, w: seq<Byte>)
    requires i + |w| <= |s| && s[i..i + |w|] == w
    ensures Holds(s, i, w)
  {
    assert s[i..][..|w|] == w;
  }

  lemma HeldSlice(s: seq<Byte>, i: nat, w: seq<Byte>)
    requires Holds(s, i, w)
    ensures i + |w| <= |s| && s[i..i + |w|] == w
  {
    assert s[i..][..|w|] == w;
  }

  lemma HeldFieldsFlatten(f: Fields, s: seq<Byte>)
    requires HasState(f, s)
    ensures StateAt(f) + |f.state| == |Flatten(f)| <= |s|
    ensures Flatten(f) <= s
  {
    hide Value, IsVarInt, Flatten;
    HeldSlice(s, 0, f.id);
    HeldSlice(s, VersionAt(f), f.version);
    HeldSlice(s, AddressLenAt(f), f.addressLen);
    HeldSlice(s, AddressAt(f), f.address);
    HeldSlice(s, PortAt(f), f.port);
    HeldSlice(s, StateAt(f), f.state);
    var end := StateAt(f) + |f.state|;
    CarveFlattens(s, VersionAt(f), AddressLenAt(f), AddressAt(f), PortAt(f), StateAt(f), end);
    assert f == Carve(s, VersionAt(f), AddressLenAt(f), AddressAt(f), PortAt(f), StateAt(f), end);
  }

  // ---- What the field readers return -------------------------------------------

  lemma WholeVarInt(s: seq<Byte>, i: nat, w: seq<Byte>)
    requires i <= |s| && w <= s[i..] && IsVarInt(w)
    ensures SignedVarInt(s[i..]) == Ok((Signed(Value(w)), |w|))
  {
    DecodeComplete(w, s[i..][|w|..]);
    assert w + s[i..][|w|..] == s[i..];
  }

  lemma OverlongVarInt(s: seq<Byte>)
    ensures Overlong(s) <==> SignedVarInt(s) == Err(VarIntTooLong)
  {
    if Overlong(s) {
      DecodeFails(s, MAX_VARINT_BYTES);
    } else {
      LeadMeans(s);
    }
  }

  lemma IdRead(f: Fields, s: seq<Byte>)
    requires HasId(f, s)
    ensures VersionAt(f) <= |s|
    ensures SignedVarInt(s) == Ok((Signed(Value(f.id)), |f.id|))
  {
    WholeVarInt(s, 0, f.id);
    assert s[0..] == s;
  }

  lemma VersionRead(f: Fields, s: seq<Byte>)
    requires HasVersion(f, s)
    ensures AddressLenAt(f) <= |s|
    ensures SignedVarInt(s[VersionAt(f)..]) == Ok((Signed(Value(f.version)), |f.version|))
  {
    WholeVarInt(s, VersionAt(f), f.version);
  }

  lemma LengthRead(f: Fields, s: seq<Byte>)
    requires HasLength(f, s)
    ensures AddressAt(f) <= |s|
    ensures SignedVarInt(s[AddressLenAt(f)..]) == Ok((Signed(Value(f.addressLen)), |f.addressLen|))
  {
    WholeVarInt(s, AddressLenAt(f), f.addressLen);
  }

  lemma AddressRead(utf8: Utf8, f: Fields, s: seq<Byte>)
    requires HasAddress(f, s)
    ensures PortAt(f) <= |s|
    ensures ReadMcString(utf8, s[AddressLenAt(f)..])
         == if utf8(f.address) then Ok((f.address, |f.addressLen| + |f.address|)) else Err(InvalidUtf8)
  {
    hide SignedVarInt, Value, IsVarInt;
    LengthRead(f, s);
    HeldSlice(s, AddressAt(f), f.address);
    Reslice(s, AddressLenAt(f), |f.addressLen|, |f.addressLen| + |f.address|);
  }

  lemma Reslice(s: seq<Byte>, i: nat, lo: nat, hi: nat)
    requires lo <= hi && i + hi <= |s|
    ensures s[i..][lo..hi] == s[i + lo..i + hi]
  {
  }

  lemma PortRead(f: Fields, s: seq<Byte>)
    requires HasPort(f, s)
    ensures StateAt(f) <= |s|
    ensures Between(s, PortAt(f), PortAt(f) + 2) == Ok(f.port)
  {
    HeldSlice(s, PortAt(f), f.port);
  }

  lemma StateRead(f: Fields, s: seq<Byte>)
    requires HasState(f, s)
    ensures StateAt(f) + |f.state| <= |s|
    ensures SignedVarInt(s[StateAt(f)..]) == Ok((Signed(Value(f.state)), |f.state|))
  {
    WholeVarInt(s, StateAt(f), f.state);
  }

  // ---- Every result explained ----------------------------------------------------

  /** The parsed form of a body whose state is 1 or 2. */
  function Meaning(f: Fields): Handshake
    requires |f.port| == 2
  {
    Handshake(Signed(Value(f.version)), f.address, Be16(f.port[0], f.port[1]),
              if Value(f.state) == 1 then Status else Login)
  }

  /** A handshake body but for its state: packet ID 0 and a UTF-8 address, of any length an `i32` can count. */
  ghost predicate IsBody(utf8: Utf8, f: Fields) {
    && WellFormed(f)
    && |f.address| < 0x8000_0000
    && Value(f.id) == 0
    && utf8(f.address)
  }

  /** An otherwise valid handshake: the state is one of the two the parser knows. */
  ghost predicate IsVanilla(utf8: Utf8, f: Fields) {
    IsBody(utf8, f) && (Value(f.state) == 1 || Value(f.state) == 2)
  }

  /** `s` is the body `f` and `k` bytes more. */
  ghost predicate LeavesOver(f: Fields, s: seq<Byte>, k: nat) {
    Flatten(f) <= s && |s| == |Flatten(f)| + k
  }

  /** The fault the parser names really is in the buffer, and everything it reads before it is sound. */
  ghost predicate Explains(utf8: Utf8, f: Fields, s: seq<Byte>, r: Result<Handshake, ParseError>) {
    match r
    case Ok(h) => IsVanilla(utf8, f) && LeavesOver(f, s, 0) && Meaning(f) == h
    case Err(InvalidNextState(v)) =>
      IsBody(utf8, f) && !IsVanilla(utf8, f) && LeavesOver(f, s, 0) && v == Signed(Value(f.state))
    case Err(TrailingBytes(k)) => IsBody(utf8, f) && k > 0 && LeavesOver(f, s, k)
    case Err(InvalidUtf8) => HasAddress(f, s) && Value(f.id) == 0 && !utf8(f.address)
    case Err(NegativeLength(v)) =>
      HasLength(f, s) && Value(f.id) == 0 && Value(f.addressLen) >= 0x8000_0000 && v == Signed(Value(f.addressLen))
    case Err(WrongPacketId(v)) => HasId(f, s) && Value(f.id) != 0 && v == Signed(Value(f.id))
    case Err(VarIntTooLong) =>
      || OverlongAt(s, 0)
      || (&& HasId(f, s) && Value(f.id) == 0
          && (|| OverlongAt(s, VersionAt(f))
              || (HasVersion(f, s) && OverlongAt(s, AddressLenAt(f)))
              || (HasPort(f, s) && utf8(f.address) && OverlongAt(s, StateAt(f)))))
    case Err(UnexpectedEof) => false
    case Err(InvalidPort(_)) => false
  }

  /** An explanation fixes the result. */
  lemma ExplainedIsParsed(utf8: Utf8, f: Fields, s: seq<Byte>, r: Result<Handshake, ParseError>)
    requires Explains(utf8, f, s, r)
    ensures Parsed(utf8, s) == r
  {
    match r
    case Err(VarIntTooLong) => OverlongReported(utf8, f, s);
    case Err(WrongPacketId(_)) => WrongIdReported(utf8, f, s);
    case Err(NegativeLength(_)) => NegativeLengthReported(utf8, f, s);
    case Err(InvalidUtf8) => AddressReported(utf8, f, s);
    case _ => BodyReported(utf8, f, s);
  }

  lemma OverlongReported(utf8: Utf8, f: Fields, s: seq<Byte>)
    requires Explains(utf8, f, s, Err(VarIntTooLong))
    ensures Parsed(utf8, s) == Err(VarIntTooLong)
  {
    hide Value, IsVarInt, SignedVarInt, Signed, Be16, Overlong, Holds;
    if OverlongAt(s, 0) {
      assert s[0..] == s;
      OverlongVarInt(s);
    } else {
      IdRead(f, s);
      if OverlongAt(s, VersionAt(f)) {
        OverlongVarInt(s[VersionAt(f)..]);
      } else {
        VersionRead(f, s);
        if OverlongAt(s, AddressLenAt(f)) {
          OverlongVarInt(s[AddressLenAt(f)..]);
        } else {
          AddressRead(utf8, f, s);
          PortRead(f, s);
          OverlongVarInt(s[StateAt(f)..]);
        }
      }
    }
  }

  lemma WrongIdReported(utf8: Utf8, f: Fields, s: seq<Byte>)
    requires HasId(f, s) && Value(f.id) != 0
    ensures Parsed(utf8, s) == Err(WrongPacketId(Signed(Value(f.id))))
  {
    hide Value, IsVarInt, SignedVarInt, ReadMcString, Holds;
    IdRead(f, s);
  }

  lemma NegativeLengthReported(utf8: Utf8, f: Fields, s: seq<Byte>)
    requires HasLength(f, s) && Value(f.id) == 0 && Value(f.addressLen) >= 0x8000_0000
    ensures Parsed(utf8, s) == Err(NegativeLength(Signed(Value(f.addressLen))))
  {
    hide Value, IsVarInt, SignedVarInt, Holds;
    IdRead(f, s);
    VersionRead(f, s);
    LengthRead(f, s);
  }

  lemma AddressReported(utf8: Utf8, f: Fields, s: seq<Byte>)
    requires HasAddress(f, s) && Value(f.id) == 0 && !utf8(f.address)
    ensures Parsed(utf8, s) == Err(InvalidUtf8)
  {
    hide Value, IsVarInt, SignedVarInt, ReadMcString, Holds;
    IdRead(f, s);
    VersionRead(f, s);
    AddressRead(utf8, f, s);
  }

  lemma BodyReported(utf8: Utf8, f: Fields, s: seq<Byte>)
    requires IsBody(utf8, f) && Flatten(f) <= s
    ensures Parsed(utf8, s)
         == if |s| > |Flatten(f)| then Err(TrailingBytes(|s| - |Flatten(f)|))
            else if Value(f.state) == 1 || Value(f.state) == 2 then Ok(Meaning(f))
            else Err(InvalidNextState(Signed(Value(f.state))))
  {
    hide Value, IsVarInt, SignedVarInt, ReadMcString, Signed, Be16, Flatten, Holds, WellFormed;
    HoldingAllIsOpeningWith(f, s);
    assert |f.port| == 2;
    IdRead(f, s);
    VersionRead(f, s);
    AddressRead(utf8, f, s);
    PortRead(f, s);
    StateRead(f, s);
  }

  // ---- Finding the explanation -----------------------------------------------------

  /** What a VarInt read at `i` was, as a piece of the buffer. */
  lemma VarIntSound(s: seq<Byte>, i: nat)
    requires i <= |s| && SignedVarInt(s[i..]).Ok?
    ensures var n := SignedVarInt(s[i..]).value.1;
            && i + n <= |s|
            && Holds(s, i, s[i..i + n])
            && IsVarInt(s[i..i + n])
            && SignedVarInt(s[i..]).value.0 == Signed(Value(s[i..i + n]))
  {
    DecodeSound(s[i..]);
    var n := SignedVarInt(s[i..]).value.1;
    assert s[i..][..n] == s[i..i + n];
  }

  /** The fields found from the left, as far as the buffer yields them. */
  lemma FindId(s: seq<Byte>) returns (f: Fields)
    requires SignedVarInt(s).Ok?
    ensures HasId(f, s) && SignedVarInt(s) == Ok((Signed(Value(f.id)), |f.id|))
  {
    hide SignedVarInt, Value, IsVarInt, Holds;
    assert s[0..] == s;
    VarIntSound(s, 0);
    f := Fields(s[0..SignedVarInt(s).value.1], [], [], [], [], []);
  }

  lemma FindVersion(f: Fields, s: seq<Byte>) returns (g: Fields)
    requires HasId(f, s) && VersionAt(f) <= |s|
    requires SignedVarInt(s[VersionAt(f)..]).Ok?
    ensures HasVersion(g, s) && g.id == f.id
  {
    hide SignedVarInt, Value, IsVarInt, Holds;
    var i := VersionAt(f);
    VarIntSound(s, i);
    g := f.(version := s[i..i + SignedVarInt(s[i..]).value.1]);
  }

  lemma FindLength(f: Fields, s: seq<Byte>) returns (g: Fields)
    requires HasVersion(f, s) && AddressLenAt(f) <= |s|
    requires SignedVarInt(s[AddressLenAt(f)..]).Ok?
    ensures HasLength(g, s) && g.id == f.id && g.version == f.version
  {
    hide SignedVarInt, Value, IsVarInt, Holds;
    var i := AddressLenAt(f);
    VarIntSound(s, i);
    g := f.(addressLen := s[i..i + SignedVarInt(s[i..]).value.1]);
  }

  lemma FindAddress(f: Fields, s: seq<Byte>) returns (g: Fields)
    requires HasLength(f, s) && Value(f.addressLen) < 0x8000_0000
    requires AddressAt(f) + Value(f.addressLen) <= |s|
    ensures HasAddress(g, s) && g.id == f.id && g.version == f.version && g.addressLen == f.addressLen
  {
    hide Value, IsVarInt;
    var i := AddressAt(f);
    g := f.(address := s[i..i + Value(f.addressLen)]);
    SliceHeld(s, i, g.address);
  }

  lemma FindState(f: Fields, s: seq<Byte>) returns (g: Fields)
    requires HasAddress(f, s) && PortAt(f) + 2 <= |s|
    ensures HasPort(g, s) && g.id == f.id && g.version == f.version
    ensures g.addressLen == f.addressLen && g.address == f.address && StateAt(g) == PortAt(f) + 2
    ensures SignedVarInt(s[PortAt(f) + 2..]).Ok? ==> HasState(g, s)
  {
    hide SignedVarInt, Value, IsVarInt;
    var i := PortAt(f);
    g := f.(port := s[i..i + 2]);
    SliceHeld(s, i, g.port);
    if SignedVarInt(s[i + 2..]).Ok? {
      VarIntSound(s, i + 2);
      g := g.(state := s[i + 2..i + 2 + SignedVarInt(s[i + 2..]).value.1]);
    }
  }

  /** Every result but UnexpectedEof has an explanation. */
  lemma Explain(utf8: Utf8, s: seq<Byte>) returns (f: Fields)
    requires Parsed(utf8, s) != Err(UnexpectedEof)
    ensures Explains(utf8, f, s, Parsed(utf8, s))
  {
    hide SignedVarInt, ReadMcString, Value, IsVarInt, Signed, Be16, Flatten, Overlong, Holds;
    assert s[0..] == s;
    OverlongVarInt(s);
    if SignedVarInt(s).Ok? {
      f := FindId(s);
      if Value(f.id) == 0 {
        f := ExplainVersion(utf8, f, s);
      } else {
        WrongIdReported(utf8, f, s);
      }
    } else {
      f := Fields([], [], [], [], [], []);
      ExplainedIsParsed(utf8, f, s, Err(VarIntTooLong));
    }
  }

  lemma ExplainVersion(utf8: Utf8, f: Fields, s: seq<Byte>) returns (g: Fields)
    requires HasId(f, s) && Value(f.id) == 0
    requires Parsed(utf8, s) != Err(UnexpectedEof)
    ensures Explains(utf8, g, s, Parsed(utf8, s))
  {
    hide SignedVarInt, ReadMcString, Value, IsVarInt, Be16, Flatten, Overlong, Holds;
    IdRead(f, s);
    OverlongVarInt(s[VersionAt(f)..]);
    if SignedVarInt(s[VersionAt(f)..]).Ok? {
      g := FindVersion(f, s);
      g := ExplainLength(utf8, g, s);
    } else {
      g := f;
      ExplainedIsParsed(utf8, f, s, Err(VarIntTooLong));
    }
  }

  lemma ExplainLength(utf8: Utf8, f: Fields, s: seq<Byte>) returns (g: Fields)
    requires HasVersion(f, s) && Value(f.id) == 0
    requires Parsed(utf8, s) != Err(UnexpectedEof)
    ensures Explains(utf8, g, s, Parsed(utf8, s))
  {
    hide SignedVarInt, Value, IsVarInt, Be16, Flatten, Overlong, Holds;
    IdRead(f, s);
    VersionRead(f, s);
    OverlongVarInt(s[AddressLenAt(f)..]);
    if SignedVarInt(s[AddressLenAt(f)..]).Ok? {
      g := FindLength(f, s);
      LengthRead(g, s);
      if Value(g.addressLen) >= 0x8000_0000 {
        NegativeLengthReported(utf8, g, s);
      } else {
        g := FindAddress(g, s);
        g := ExplainState(utf8, g, s);
      }
    } else {
      g := f;
      ExplainedIsParsed(utf8, f, s, Err(VarIntTooLong));
    }
  }

  lemma ExplainState(utf8: Utf8, f: Fields, s: seq<Byte>) returns (g: Fields)
    requires HasAddress(f, s) && Value(f.id) == 0
    requires Parsed(utf8, s) != Err(UnexpectedEof)
    ensures Explains(utf8, g, s, Parsed(utf8, s))
  {
    hide SignedVarInt, ReadMcString, Value, IsVarInt, Be16, Flatten, Overlong, Holds;
    IdRead(f, s);
    VersionRead(f, s);
    AddressRead(utf8, f, s);
    if utf8(f.address) {
      g := FindState(f, s);
      OverlongVarInt(s[PortAt(f) + 2..]);
      if SignedVarInt(s[PortAt(f) + 2..]).Ok? {
        HoldingAllIsOpeningWith(g, s);
        BodyReported(utf8, g, s);
      } else {
        ExplainedIsParsed(utf8, g, s, Err(VarIntTooLong));
      }
    } else {
      g := f;
      AddressReported(utf8, f, s);
    }
  }

  // ---- The diagnostics are exact -----------------------------------------------------

  /** Each result is returned for exactly the buffers it is true of, and UnexpectedEof for exactly the rest. */
  lemma DiagnosticsExactly(utf8: Utf8, s: seq<Byte>, r: Result<Handshake, ParseError>)
    ensures r != Err(UnexpectedEof) ==> (Parsed(utf8, s) == r <==> exists f :: Explains(utf8, f, s, r))
    ensures Parsed(utf8, s) == Err(UnexpectedEof) <==> forall f, e :: !Explains(utf8, f, s, e)
  {
    hide Explains, Parsed;
    if Parsed(utf8, s) != Err(UnexpectedEof) {
      var f := Explain(utf8, s);
    }
    forall f, e | Explains(utf8, f, s, e) ensures Parsed(utf8, s) == e != Err(UnexpectedEof) {
      ExplainedIsParsed(utf8, f, s, e);
      EofUnexplained(utf8, f, s);
    }
  }

  lemma EofUnexplained(utf8: Utf8, f: Fields, s: seq<Byte>)
    ensures !Explains(utf8, f, s, Err(UnexpectedEof))
  {
  }

  ghost predicate Spells(utf8: Utf8, f: Fields, body: seq<Byte>, h: Handshake) {
    IsVanilla(utf8, f) && Flatten(f) == body && Meaning(f) == h
  }

  /** The handshake a parsed body spells. */
  lemma Dissect(utf8: Utf8, body: seq<Byte>) returns (f: Fields)
    requires Parsed(utf8, body).Ok?
    ensures Spells(utf8, f, body, Parsed(utf8, body).value)
  {
    hide Parsed, Value, IsVarInt, Flatten, WellFormed;
    f := Explain(utf8, body);
  }

  /** A body parses exactly when it spells a handshake, and then to what it spells. */
  lemma ParsedExactly(utf8: Utf8, body: seq<Byte>, h: Handshake)
    ensures Parsed(utf8, body) == Ok(h) <==> exists f :: Spells(utf8, f, body, h)
  {
    hide Parsed, Value, IsVarInt, Flatten, WellFormed;
    if Parsed(utf8, body) == Ok(h) {
      var f := Dissect(utf8, body);
      assert Spells(utf8, f, body, h);
    }
    if f :| Spells(utf8, f, body, h) {
      ExplainedIsParsed(utf8, f, body, Ok(h));
    }
  }

  /** What a well-formed body followed by `extra` more bytes is diagnosed as, checks in the parser's order. */
  function Diagnosis(utf8: Utf8, f: Fields, extra: nat): Result<Handshake, ParseError>
    requires |f.port| == 2
  {
    if Value(f.id) != 0 then Err(WrongPacketId(Signed(Value(f.id))))
    else if !utf8(f.address) then Err(InvalidUtf8)
    else if extra > 0 then Err(TrailingBytes(extra))
    else if Value(f.state) == 1 || Value(f.state) == 2 then Ok(Meaning(f))
    else Err(InvalidNextState(Signed(Value(f.state))))
  }

  /** Every well-formed body, whatever follows it, gets exactly its diagnosis. */
  lemma ParsedIsDiagnosis(utf8: Utf8, f: Fields, s: seq<Byte>)
    requires WellFormed(f) && Flatten(f) <= s
    requires |f.address| < 0x8000_0000
    ensures Parsed(utf8, s) == Diagnosis(utf8, f, |s| - |Flatten(f)|)
  {
    hide Parsed, Value, IsVarInt, Flatten, Signed, Be16, Holds;
    HoldingAllIsOpeningWith(f, s);
    if Value(f.id) != 0 {
      WrongIdReported(utf8, f, s);
    } else if !utf8(f.address) {
      AddressReported(utf8, f, s);
    } else {
      BodyReported(utf8, f, s);
    }
  }

  // ---- Trailing bytes ------------------------------------------------------------------

  ghost predicate BodyThen(utf8: Utf8, f: Fields, s: seq<Byte>, k: nat) {
    IsBody(utf8, f) && LeavesOver(f, s, k)
  }

  /** TrailingBytes(k) is reported exactly for a body with k bytes after it, whatever state the body carries. */
  lemma TrailingBytesExactly(utf8: Utf8, s: seq<Byte>, k: nat)
    requires k > 0
    ensures Parsed(utf8, s) == Err(TrailingBytes(k)) <==> exists f :: BodyThen(utf8, f, s, k)
  {
    hide Parsed, IsBody, LeavesOver;
    if Parsed(utf8, s) == Err(TrailingBytes(k)) {
      var f := Explain(utf8, s);
      assert BodyThen(utf8, f, s, k);
    }
    if f :| BodyThen(utf8, f, s, k) {
      ExplainedIsParsed(utf8, f, s, Err(TrailingBytes(k)));
    }
  }

  /** The documented meaning of TrailingBytes(k): k bytes after an otherwise valid handshake. */
  ghost predicate DocumentedTrailing(utf8: Utf8, s: seq<Byte>, k: nat) {
    exists f :: BodyThen(utf8, f, s, k) && IsVanilla(utf8, f)
  }

  /** The documented meaning is the code's exactly when the body before the trailing bytes has state 1 or 2. */
  lemma TrailingBytesAsDocumented(utf8: Utf8, s: seq<Byte>, k: nat)
    requires k > 0
    ensures DocumentedTrailing(utf8, s, k) ==> Parsed(utf8, s) == Err(TrailingBytes(k))
    ensures (Parsed(utf8, s) == Err(TrailingBytes(k)) <==> DocumentedTrailing(utf8, s, k))
         <==> (forall f | BodyThen(utf8, f, s, k) :: Value(f.state) == 1 || Value(f.state) == 2)
  {
    hide Parsed, Value, Flatten, WellFormed;
    TrailingBytesExactly(utf8, s, k);
    forall f, g | BodyThen(utf8, f, s, k) && BodyThen(utf8, g, s, k) ensures f == g {
      FieldsUnique(f, g, s);
    }
  }
}
