/** The controller's command table (`cmds`) and the way `sendcmd` turns a command's
    text into the bytes written to the serial port. */
module Commands {
  import opened Results
  import opened PyText
  import opened Codec

  /** The entries of `cmds`, one per dictionary key. */
  datatype Command =
    | ReqInfo            // "req_info"
    | ReqEncCounter      // "req_enccounter"
    | ReqPosCounter      // "req_poscounter"
    | ReqVelParams       // "req_velparams"
    | ReqJogParams       // "req_jogparams"
    | ReqMmiParams       // "req_mmiparams"
    | Identify           // "identify"
    | ReqGenMoveParams   // "req_genmoveparams"
    | ReqHomeParams      // "req_homeparams"
    | MoveHome           // "move_home"
    | MoveRelSet         // "move_rel_set"
    | ReqMoveRelParams   // "req_moverelparams"
    | MoveRel            // "move_rel"
    | MoveRelAngle       // "move_rel_angle"
    | MoveAbsSet         // "move_abs_set"
    | ReqMoveAbsParams   // "req_moveabsparams"
    | MoveAbs            // "move_abs"
    | MoveAbsAngle       // "move_abs_angle"
    | MoveVelocityF      // "move_velocity_f"
    | MoveVelocityB      // "move_velocity_b"
    | MoveStop           // "move_stop"
    | MoveJogForward     // "move_jog_forward"
    | MoveJogBackward    // "move_jog_backward"

  /** The entries marked "+4 byte": their text is completed by a four-byte position. */
  predicate TakesAngle(c: Command) {
    c == MoveRelSet || c == MoveRelAngle || c == MoveAbsSet || c == MoveAbsAngle
  }

  /** The bytes of each entry. A plain entry is a six-byte header addressed to the
      controller (bytes 4 and 5 are 0x50, 0x01); a "+4 byte" entry is a header that
      announces six data bytes (byte 2), flags them with 0xD0 in byte 4, and carries
      the channel word 01 00 as the first two of them. */
  function Header(c: Command): (bs: seq<Byte>)
    ensures !TakesAngle(c) ==> |bs| == 6 && bs[4] == 0x50 && bs[5] == 0x01
    ensures TakesAngle(c) ==> |bs| == 8 && bs[2] == 6 && bs[3] == 0 && bs[4] == 0xD0 && bs[5] == 0x01 && bs[6] == 0x01 && bs[7] == 0x00
  {
    match c
    case ReqInfo => [0x05, 0x00, 0x00, 0x00, 0x50, 0x01]
    case ReqEncCounter => [0x0A, 0x04, 0x01, 0x00, 0x50, 0x01]
    case ReqPosCounter => [0x11, 0x04, 0x01, 0x00, 0x50, 0x01]
    case ReqVelParams => [0x14, 0x04, 0x01, 0x00, 0x50, 0x01]
    case ReqJogParams => [0x17, 0x04, 0x01, 0x00, 0x50, 0x01]
    case ReqMmiParams => [0x21, 0x05, 0x01, 0x00, 0x50, 0x01]
    case Identify => [0x23, 0x02, 0x00, 0x00, 0x50, 0x01]
    case ReqGenMoveParams => [0x3B, 0x04, 0x01, 0x00, 0x50, 0x01]
    case ReqHomeParams => [0x41, 0x04, 0x01, 0x00, 0x50, 0x01]
    case MoveHome => [0x43, 0x04, 0x01, 0x00, 0x50, 0x01]
    case MoveRelSet => [0x45, 0x04, 0x06, 0x00, 0xD0, 0x01, 0x01, 0x00]
    case ReqMoveRelParams => [0x46, 0x04, 0x01, 0x00, 0x50, 0x01]
    case MoveRel => [0x48, 0x04, 0x01, 0x00, 0x50, 0x01]
    case MoveRelAngle => [0x48, 0x04, 0x06, 0x00, 0xD0, 0x01, 0x01, 0x00]
    case MoveAbsSet => [0x50, 0x04, 0x06, 0x00, 0xD0, 0x01, 0x01, 0x00]
    case ReqMoveAbsParams => [0x51, 0x04, 0x01, 0x00, 0x50, 0x01]
    case MoveAbs => [0x53, 0x04, 0x01, 0x00, 0x50, 0x01]
    case MoveAbsAngle => [0x53, 0x04, 0x06, 0x00, 0xD0, 0x01, 0x01, 0x00]
    case MoveVelocityF => [0x57, 0x04, 0x01, 0x02, 0x50, 0x01]
    case MoveVelocityB => [0x57, 0x04, 0x01, 0x01, 0x50, 0x01]
    case MoveStop => [0x65, 0x04, 0x01, 0x00, 0x50, 0x01]
    case MoveJogForward => [0x6A, 0x04, 0x01, 0x02, 0x50, 0x01]
    case MoveJogBackward => [0x6A, 0x04, 0x01, 0x01, 0x50, 0x01]
  }

  /** The text stored under each key: the entry's bytes as upper-case two-digit
      groups separated by single spaces, e.g. "11 04 01 00 50 01". */
  function Cmds(c: Command): string
  {
    match c
    case ReqInfo => "05 00 00 00 50 01"
    case ReqEncCounter => "0A 04 01 00 50 01"
    case ReqPosCounter => "11 04 01 00 50 01"
    case ReqVelParams => "14 04 01 00 50 01"
    case ReqJogParams => "17 04 01 00 50 01"
    case ReqMmiParams => "21 05 01 00 50 01"
    case Identify => "23 02 00 00 50 01"
    case ReqGenMoveParams => "3B 04 01 00 50 01"
    case ReqHomeParams => "41 04 01 00 50 01"
    case MoveHome => "43 04 01 00 50 01"
    case MoveRelSet => "45 04 06 00 D0 01 01 00"
    case ReqMoveRelParams => "46 04 01 00 50 01"
    case MoveRel => "48 04 01 00 50 01"
    case MoveRelAngle => "48 04 06 00 D0 01 01 00"
    case MoveAbsSet => "50 04 06 00 D0 01 01 00"
    case ReqMoveAbsParams => "51 04 01 00 50 01"
    case MoveAbs => "53 04 01 00 50 01"
    case MoveAbsAngle => "53 04 06 00 D0 01 01 00"
    case MoveVelocityF => "57 04 01 02 50 01"
    case MoveVelocityB => "57 04 01 01 50 01"
    case MoveStop => "65 04 01 00 50 01"
    case MoveJogForward => "6A 04 01 02 50 01"
    case MoveJogBackward => "6A 04 01 01 50 01"
  }

  /** The table's text agrees with the entry's bytes: with a space in front it is the
      groups `convert_angle` and `int_to_hexstr` write for those bytes, so its length
      is three characters per byte less the leading space. */
  lemma CmdsGroups(c: Command)
    ensures " " + Cmds(c) == HexGroups(Header(c))
    ensures |Cmds(c)| == 3 * |Header(c)| - 1
  {
    match c
    case ReqInfo => ReqInfoText(Cmds(c));
    case ReqEncCounter => ReqEncCounterText(Cmds(c));
    case ReqPosCounter => ReqPosCounterText(Cmds(c));
    case ReqVelParams => ReqVelParamsText(Cmds(c));
    case ReqJogParams => ReqJogParamsText(Cmds(c));
    case ReqMmiParams => ReqMmiParamsText(Cmds(c));
    case Identify => IdentifyText(Cmds(c));
    case ReqGenMoveParams => ReqGenMoveParamsText(Cmds(c));
    case ReqHomeParams => ReqHomeParamsText(Cmds(c));
    case MoveHome => MoveHomeText(Cmds(c));
    case MoveRelSet => MoveRelSetText(Cmds(c));
    case ReqMoveRelParams => ReqMoveRelParamsText(Cmds(c));
    case MoveRel => MoveRelText(Cmds(c));
    case MoveRelAngle => MoveRelAngleText(Cmds(c));
    case MoveAbsSet => MoveAbsSetText(Cmds(c));
    case ReqMoveAbsParams => ReqMoveAbsParamsText(Cmds(c));
    case MoveAbs => MoveAbsText(Cmds(c));
    case MoveAbsAngle => MoveAbsAngleText(Cmds(c));
    case MoveVelocityF => MoveVelocityFText(Cmds(c));
    case MoveVelocityB => MoveVelocityBText(Cmds(c));
    case MoveStop => MoveStopText(Cmds(c));
    case MoveJogForward => MoveJogForwardText(Cmds(c));
    case MoveJogBackward => MoveJogBackwardText(Cmds(c));
  }

  // One lemma per entry: its text spells out its bytes.

  lemma ReqInfoText(s: string)
    requires s == "05 00 00 00 50 01"
    ensures " " + s == HexGroups([0x05, 0x00, 0x00, 0x00, 0x50, 0x01])
  {
    SpelledSix(0x05, 0x00, 0x00, 0x00, 0x50, 0x01, s);
  }

  lemma ReqEncCounterText(s: string)
    requires s == "0A 04 01 00 50 01"
    ensures " " + s == HexGroups([0x0A, 0x04, 0x01, 0x00, 0x50, 0x01])
  {
    SpelledSix(0x0A, 0x04, 0x01, 0x00, 0x50, 0x01, s);
  }

  lemma ReqPosCounterText(s: string)
    requires s == "11 04 01 00 50 01"
    ensures " " + s == HexGroups([0x11, 0x04, 0x01, 0x00, 0x50, 0x01])
  {
    SpelledSix(0x11, 0x04, 0x01, 0x00, 0x50, 0x01, s);
  }

  lemma ReqVelParamsText(s: string)
    requires s == "14 04 01 00 50 01"
    ensures " " + s == HexGroups([0x14, 0x04, 0x01, 0x00, 0x50, 0x01])
  {
    SpelledSix(0x14, 0x04, 0x01, 0x00, 0x50, 0x01, s);
  }

  lemma ReqJogParamsText(s: string)
    requires s == "17 04 01 00 50 01"
    ensures " " + s == HexGroups([0x17, 0x04, 0x01, 0x00, 0x50, 0x01])
  {
    SpelledSix(0x17, 0x04, 0x01, 0x00, 0x50, 0x01, s);
  }

  lemma ReqMmiParamsText(s: string)
    requires s == "21 05 01 00 50 01"
    ensures " " + s == HexGroups([0x21, 0x05, 0x01, 0x00, 0x50, 0x01])
  {
    SpelledSix(0x21, 0x05, 0x01, 0x00, 0x50, 0x01, s);
  }

  lemma IdentifyText(s: string)
    requires s == "23 02 00 00 50 01"
    ensures " " + s == HexGroups([0x23, 0x02, 0x00, 0x00, 0x50, 0x01])
  {
    SpelledSix(0x23, 0x02, 0x00, 0x00, 0x50, 0x01, s);
  }

  lemma ReqGenMoveParamsText(s: string)
    requires s == "3B 04 01 00 50 01"
    ensures " " + s == HexGroups([0x3B, 0x04, 0x01, 0x00, 0x50, 0x01])
  {
    SpelledSix(0x3B, 0x04, 0x01, 0x00, 0x50, 0x01, s);
  }

  lemma ReqHomeParamsText(s: string)
    requires s == "41 04 01 00 50 01"
    ensures " " + s == HexGroups([0x41, 0x04, 0x01, 0x00, 0x50, 0x01])
  {
    SpelledSix(0x41, 0x04, 0x01, 0x00, 0x50, 0x01, s);
  }

  lemma MoveHomeText(s: string)
    requires s == "43 04 01 00 50 01"
    ensures " " + s == HexGroups([0x43, 0x04, 0x01, 0x00, 0x50, 0x01])
  {
    SpelledSix(0x43, 0x04, 0x01, 0x00, 0x50, 0x01, s);
  }

  lemma MoveRelSetText(s: string)
    requires s == "45 04 06 00 D0 01 01 00"
    ensures " " + s == HexGroups([0x45, 0x04, 0x06, 0x00, 0xD0, 0x01, 0x01, 0x00])
  {
    SpelledEight(0x45, 0x04, 0x06, 0x00, 0xD0, 0x01, 0x01, 0x00, s);
  }

  lemma ReqMoveRelParamsText(s: string)
    requires s == "46 04 01 00 50 01"
    ensures " " + s == HexGroups([0x46, 0x04, 0x01, 0x00, 0x50, 0x01])
  {
    SpelledSix(0x46, 0x04, 0x01, 0x00, 0x50, 0x01, s);
  }

  lemma MoveRelText(s: string)
    requires s == "48 04 01 00 50 01"
    ensures " " + s == HexGroups([0x48, 0x04, 0x01, 0x00, 0x50, 0x01])
  {
    SpelledSix(0x48, 0x04, 0x01, 0x00, 0x50, 0x01, s);
  }

  lemma MoveRelAngleText(s: string)
    requires s == "48 04 06 00 D0 01 01 00"
    ensures " " + s == HexGroups([0x48, 0x04, 0x06, 0x00, 0xD0, 0x01, 0x01, 0x00])
  {
    SpelledEight(0x48, 0x04, 0x06, 0x00, 0xD0, 0x01, 0x01, 0x00, s);
  }

  lemma MoveAbsSetText(s: string)
    requires s == "50 04 06 00 D0 01 01 00"
    ensures " " + s == HexGroups([0x50, 0x04, 0x06, 0x00, 0xD0, 0x01, 0x01, 0x00])
  {
    SpelledEight(0x50, 0x04, 0x06, 0x00, 0xD0, 0x01, 0x01, 0x00, s);
  }

  lemma ReqMoveAbsParamsText(s: string)
    requires s == "51 04 01 00 50 01"
    ensures " " + s == HexGroups([0x51, 0x04, 0x01, 0x00, 0x50, 0x01])
  {
    SpelledSix(0x51, 0x04, 0x01, 0x00, 0x50, 0x01, s);
  }

  lemma MoveAbsText(s: string)
    requires s == "53 04 01 00 50 01"
    ensures " " + s == HexGroups([0x53, 0x04, 0x01, 0x00, 0x50, 0x01])
  {
    SpelledSix(0x53, 0x04, 0x01, 0x00, 0x50, 0x01, s);
  }

  lemma MoveAbsAngleText(s: string)
    requires s == "53 04 06 00 D0 01 01 00"
    ensures " " + s == HexGroups([0x53, 0x04, 0x06, 0x00, 0xD0, 0x01, 0x01, 0x00])
  {
    SpelledEight(0x53, 0x04, 0x06, 0x00, 0xD0, 0x01, 0x01, 0x00, s);
  }

  lemma MoveVelocityFText(s: string)
    requires s == "57 04 01 02 50 01"
    ensures " " + s == HexGroups([0x57, 0x04, 0x01, 0x02, 0x50, 0x01])
  {
    SpelledSix(0x57, 0x04, 0x01, 0x02, 0x50, 0x01, s);
  }

  lemma MoveVelocityBText(s: string)
    requires s == "57 04 01 01 50 01"
    ensures " " + s == HexGroups([0x57, 0x04, 0x01, 0x01, 0x50, 0x01])
  {
    SpelledSix(0x57, 0x04, 0x01, 0x01, 0x50, 0x01, s);
  }

  lemma MoveStopText(s: string)
    requires s == "65 04 01 00 50 01"
    ensures " " + s == HexGroups([0x65, 0x04, 0x01, 0x00, 0x50, 0x01])
  {
    SpelledSix(0x65, 0x04, 0x01, 0x00, 0x50, 0x01, s);
  }

  lemma MoveJogForwardText(s: string)
    requires s == "6A 04 01 02 50 01"
    ensures " " + s == HexGroups([0x6A, 0x04, 0x01, 0x02, 0x50, 0x01])
  {
    SpelledSix(0x6A, 0x04, 0x01, 0x02, 0x50, 0x01, s);
  }

  lemma MoveJogBackwardText(s: string)
    requires s == "6A 04 01 01 50 01"
    ensures " " + s == HexGroups([0x6A, 0x04, 0x01, 0x01, 0x50, 0x01])
  {
    SpelledSix(0x6A, 0x04, 0x01, 0x01, 0x50, 0x01, s);
  }

  /** `int(token, 16)` followed by the range check of `bytes(...)`; either failure
      is a ValueError. */
  function TokenByte(t: string): (r: Option<Byte>)
    ensures r.Some? <==> ParseInt16(t).Some? && 0 <= ParseInt16(t).value < 256
    ensures r.Some? ==> r.value == ParseInt16(t).value
  {
    match ParseInt16(t)
    case None => None
    case Some(v) => if 0 <= v < 256 then Some(v) else None
  }

  /** `bytes([int(t, 16) for t in ts])`. */
  function TokenBytes(ts: seq<string>): (r: Result<seq<Byte>, PyError>)
    ensures r.Err? ==> r.error == ValueError
    ensures r.Ok? ==> |r.value| == |ts|
  {
    if ts == [] then Ok([])
    else
      match TokenByte(ts[0])
      case None => Err(ValueError)
      case Some(b) =>
        match TokenBytes(ts[1..])
        case Err(e) => Err(e)
        case Ok(rest) => Ok([b] + rest)
  }

  /** One byte per token, in order: the conversion succeeds exactly when every token
      is a hexadecimal number in 0..255, and then byte i is the value of token i. */
  lemma TokenBytesMeaning(ts: seq<string>)
    ensures TokenBytes(ts).Ok? <==> forall i :: 0 <= i < |ts| ==> TokenByte(ts[i]).Some?
    ensures TokenBytes(ts).Ok? ==> forall i :: 0 <= i < |ts| ==> TokenByte(ts[i]) == Some(TokenBytes(ts).value[i])
  {
    TokenBytesOk(ts);
    TokenBytesAt(ts);
  }

  lemma {:induction false} TokenBytesOk(ts: seq<string>)
    ensures TokenBytes(ts).Ok? <==> forall i :: 0 <= i < |ts| ==> TokenByte(ts[i]).Some?
  {
    if ts != [] {
      TokenBytesOk(ts[1..]);
      assert forall i :: 1 <= i < |ts| ==> ts[i] == ts[1..][i - 1];
    }
  }

  lemma {:induction false} TokenBytesAt(ts: seq<string>)
    ensures TokenBytes(ts).Ok? ==> forall i :: 0 <= i < |ts| ==> TokenByte(ts[i]) == Some(TokenBytes(ts).value[i])
  {
    if ts != [] && TokenBytes(ts).Ok? {
      TokenBytesAt(ts[1..]);
      assert forall i :: 1 <= i < |ts| ==> ts[i] == ts[1..][i - 1];
    }
  }

  /** What `sendcmd(string)` writes, or the ValueError it raises: the whitespace-separated
      tokens of the text, each read as a hexadecimal byte. */
  function Frame(s: string): (r: Result<seq<Byte>, PyError>)
    ensures r.Err? ==> r.error == ValueError
    ensures r.Ok? <==> forall i :: 0 <= i < |Split(s)| ==> TokenByte(Split(s)[i]).Some?
    ensures r.Ok? ==> |r.value| == |Split(s)|
    ensures r.Ok? ==> forall i :: 0 <= i < |r.value| ==> TokenByte(Split(s)[i]) == Some(r.value[i])
  {
    TokenBytesMeaning(Split(s));
    TokenBytes(Split(s))
  }

  lemma {:induction false} TokensAt(bs: seq<Byte>, i: nat)
    requires i < |bs|
    ensures Tokens(bs)[i] == UpperHex2(bs[i])
  {
    if i > 0 {
      TokensAt(bs[1..], i - 1);
    }
  }

  /** Text built from hex groups is written back as exactly the bytes it was built from. */
  lemma FrameOfGroups(bs: seq<Byte>)
    ensures Frame(HexGroups(bs)) == Ok(bs)
  {
    SplitOfGroups(bs);
    var ts := Tokens(bs);
    forall i | 0 <= i < |ts|
      ensures TokenByte(ts[i]) == Some(bs[i])
    {
      TokensAt(bs, i);
      ParseUpperHex2(bs[i]);
    }
    TokenBytesMeaning(ts);
    var r := TokenBytes(ts);
    assert r.value == bs;
  }

  /** A leading space, as `convert_angle` puts in front of its groups, changes nothing. */
  lemma FrameLeadingSpace(s: string)
    ensures Frame(" " + s) == Frame(s)
  {
    SplitLeadingSpace(' ', s);
  }

  /** `sendcmd(cmds[key])` writes the entry's bytes: one byte per token of the text. */
  lemma CommandFrame(c: Command)
    ensures Frame(Cmds(c)) == Ok(Header(c))
  {
    CmdsGroups(c);
    FrameOfGroups(Header(c));
    FrameLeadingSpace(Cmds(c));
  }

  /** The text a "+4 byte" entry is completed with: `cmds[key] + convert_angle(angle)`,
      or the OverflowError `convert_angle` raises first. */
  function AngleCommand(c: Command, count: int): (r: Result<string, PyError>)
    requires TakesAngle(c)
    ensures r.Err? <==> !Fits4(count, true)
    ensures r.Err? ==> r.error == OverflowError
  {
    match IntToHex(count, true, 4)
    case Err(e) => Err(e)
    case Ok(hex) => Ok(Cmds(c) + hex)
  }

  /** A header's groups without their leading space, followed by more groups, are
      written back as the header's bytes followed by the others. */
  lemma FrameOfTemplate(h: seq<Byte>, bs: seq<Byte>)
    requires h != []
    ensures Frame(HexGroups(h)[1..] + HexGroups(bs)) == Ok(h + bs)
  {
    TemplateText(h, bs);
    FrameOfGroups(h + bs);
    FrameLeadingSpace(HexGroups(h)[1..] + HexGroups(bs));
  }

  lemma TemplateText(h: seq<Byte>, bs: seq<Byte>)
    requires h != []
    ensures " " + (HexGroups(h)[1..] + HexGroups(bs)) == HexGroups(h + bs)
  {
    var g := HexGroups(h);
    assert g == " " + g[1..];
    HexGroupsAppend(h, bs);
  }

  /** A "+4 byte" entry completed with an encoder count is a 12-byte frame: the eight
      template bytes, then the count as a little-endian 32-bit two's complement
      number. Byte 2 of the header counts the bytes after the six-byte header. */
  lemma AngleFrame(c: Command, count: int)
    requires TakesAngle(c) && Fits4(count, true)
    ensures AngleCommand(c, count).Ok?
    ensures Frame(AngleCommand(c, count).value) == Ok(Header(c) + ToBytes4(count, true).value)
    ensures var f := Header(c) + ToBytes4(count, true).value;
            |f| == 12 && f[2] as int == |f| - 6 && f[..8] == Header(c) && FromBytes(f[8..], true) == count
  {
    var bs := ToBytes4(count, true).value;
    assert bs[..4] == bs;
    CmdsGroups(c);
    assert Cmds(c) == HexGroups(Header(c))[1..];
    FrameOfTemplate(Header(c), bs);
    var f := Header(c) + bs;
    assert f[8..] == bs;
    ToBytes4RoundTrip(count, true);
  }
}
