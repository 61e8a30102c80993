/** The controller's replies as the driver sees them: `recvreply` renders every byte
    read from the port as two lower-case hex digits and a space, and `decodereply`
    reads the first message of that text through a table of 13 message IDs. */
module Replies {
  import opened Results
  import opened PyText

  // ---------------------------------------------------------------------------
  // Reply text

  /** The text `recvreply` accumulates: `bytes([b]).hex() + ' '` per byte read. */
  function HexReply(bs: seq<Byte>): (s: string)
    ensures |s| == 3 * |bs|
  {
    if bs == [] then [] else LowerHex2(bs[0]) + " " + HexReply(bs[1..])
  }

  lemma {:induction false} HexReplyAppend(a: seq<Byte>, b: seq<Byte>)
    ensures HexReply(a + b) == HexReply(a) + HexReply(b)
  {
    if a != [] {
      assert (a + b)[0] == a[0] && (a + b)[1..] == a[1..] + b;
      HexReplyAppend(a[1..], b);
      assert HexReply(a + b) == LowerHex2(a[0]) + " " + (HexReply(a[1..]) + HexReply(b));
    } else {
      assert a + b == b;
    }
  }

  lemma {:induction false} HexReplyDrop(bs: seq<Byte>, i: nat)
    requires i <= |bs|
    ensures HexReply(bs)[3 * i..] == HexReply(bs[i..])
  {
    if i > 0 {
      HexReplyDrop(bs[1..], i - 1);
      assert bs[1..][i - 1..] == bs[i..];
      assert HexReply(bs)[3..] == HexReply(bs[1..]);
    }
  }

  lemma {:induction false} HexReplyTake(bs: seq<Byte>, j: nat)
    requires j <= |bs|
    ensures HexReply(bs)[..3 * j] == HexReply(bs[..j])
  {
    if j > 0 {
      HexReplyTake(bs[1..], j - 1);
      assert bs[1..][..j - 1] == bs[..j][1..];
      assert HexReply(bs)[3..] == HexReply(bs[1..]);
      assert HexReply(bs)[..3 * j] == HexReply(bs)[..3] + HexReply(bs)[3..][..3 * (j - 1)];
    }
  }

  /** Characters 3i up to 3j of the text are the rendering of bytes i up to j. */
  lemma HexReplyRange(bs: seq<Byte>, i: nat, j: nat)
    requires i <= j <= |bs|
    ensures HexReply(bs)[3 * i..3 * j] == HexReply(bs[i..j])
  {
    HexReplyTake(bs, j);
    HexReplyDrop(bs[..j], i);
    assert bs[..j][i..] == bs[i..j];
    assert HexReply(bs)[3 * i..3 * j] == HexReply(bs)[..3 * j][3 * i..];
  }

  /** The rendering without its final space (what a slice of length 3n - 1 keeps). */
  function Trim(s: string): string
  {
    if s == [] then [] else s[..|s| - 1]
  }

  /** Text that renders the bytes `p`: the reply text of `p`, with or without its
      final space. */
  predicate Rendered(t: string, p: seq<Byte>) {
    t == HexReply(p) || t == Trim(HexReply(p))
  }

  /** `bytes.fromhex` reads rendered text back as the bytes it renders. */
  lemma RenderedFromHex(t: string, p: seq<Byte>)
    requires Rendered(t, p)
    ensures FromHex(t) == Ok(p)
  {
    if t == HexReply(p) {
      ReplyFromHex(p);
    } else {
      TrimmedFromHex(p);
    }
  }

  lemma {:induction false} ReplyFromHex(p: seq<Byte>)
    ensures FromHex(HexReply(p)) == Ok(p)
  {
    if p != [] {
      ReplyFromHex(p[1..]);
      ReplySplit(p);
      FromHexSpace(HexReply(p[1..]));
      FromHexPair(p[0], " " + HexReply(p[1..]));
      assert [p[0]] + p[1..] == p;
    }
  }

  lemma {:induction false} TrimmedFromHex(p: seq<Byte>)
    ensures FromHex(Trim(HexReply(p))) == Ok(p)
  {
    if |p| == 1 {
      TrimSingle(p);
      FromHexPair(p[0], []);
      assert [p[0]] + p[1..] == p;
    } else if p != [] {
      TrimmedFromHex(p[1..]);
      TrimSplit(p);
      FromHexSpace(Trim(HexReply(p[1..])));
      FromHexPair(p[0], " " + Trim(HexReply(p[1..])));
      assert [p[0]] + p[1..] == p;
    }
  }

  lemma ReplySplit(p: seq<Byte>)
    requires p != []
    ensures HexReply(p) == LowerHex2(p[0]) + (" " + HexReply(p[1..]))
  {
  }

  lemma TrimSplit(p: seq<Byte>)
    requires |p| > 1
    ensures Trim(HexReply(p)) == LowerHex2(p[0]) + (" " + Trim(HexReply(p[1..])))
  {
    ReplySplit(p);
  }

  lemma TrimSingle(p: seq<Byte>)
    requires |p| == 1
    ensures Trim(HexReply(p)) == LowerHex2(p[0]) + []
  {
    ReplySplit(p);
  }

  /** `bytes.fromhex` skips a space in front of a pair. */
  lemma FromHexSpace(u: string)
    ensures FromHex(" " + u) == FromHex(u)
  {
    assert (" " + u)[1..] == u;
  }

  /** Two hexadecimal digits followed by more text: their byte, then what the rest reads as. */
  lemma FromHexDigits(s: string)
    requires |s| >= 2 && HexValue(s[0]).Some? && HexValue(s[1]).Some? && FromHex(s[2..]).Ok?
    ensures FromHex(s) == Ok([HexValue(s[0]).value * 16 + HexValue(s[1]).value] + FromHex(s[2..]).value)
  {
  }

  /** A rendered byte followed by more text: the byte, then what the rest reads as. */
  lemma FromHexPair(b: Byte, rest: string)
    requires FromHex(rest).Ok?
    ensures FromHex(LowerHex2(b) + rest) == Ok([b] + FromHex(rest).value)
  {
    assert b / 16 * 16 + b % 16 == b;
    var h := LowerHex2(b);
    var s := h + rest;
    assert s[0] == h[0] && s[1] == h[1] && s[2..] == rest;
    FromHexDigits(s);
  }

  /** `t[3k:]` of rendered text renders the bytes after the first k. */
  lemma RenderedDrop(t: string, p: seq<Byte>, k: nat)
    requires Rendered(t, p)
    ensures Rendered(Slice(t, 3 * k, |t|), p[Min(k, |p|)..])
  {
    var m := Min(k, |p|);
    var h := HexReply(p);
    HexReplyDrop(p, m);
    if t == h {
      assert Slice(t, 3 * k, |t|) == h[3 * m..];
    } else if k < |p| {
      TrimDrop(h, 3 * k);
      assert Slice(t, 3 * k, |t|) == Trim(h[3 * k..]);
    } else {
      assert Slice(t, 3 * k, |t|) == [];
    }
  }

  lemma TrimDrop(s: string, i: nat)
    requires i < |s|
    ensures Trim(s)[i..] == Trim(s[i..])
  {
  }

  /** `t[:3k - 1]` of rendered text renders the first k bytes (or all, if fewer). */
  lemma RenderedTake(t: string, p: seq<Byte>, k: nat)
    requires Rendered(t, p) && k > 0
    ensures Rendered(Slice(t, 0, 3 * k - 1), p[..Min(k, |p|)])
  {
    var m := Min(k, |p|);
    HexReplyRange(p, 0, m);
    assert p[0..m] == p[..m];
    if k < |p| {
      assert Slice(t, 0, 3 * k - 1) == HexReply(p)[..3 * k][..3 * k - 1];
    } else {
      assert p[..m] == p;
    }
  }

  // ---------------------------------------------------------------------------
  // The message table of `decodereply`

  /** The messages `decodereply` recognises. */
  datatype Kind =
    | HardwareInfo | EncCounter | PosCounter | VelParams | JogParams | MmiParams
    | GenMoveParams | HomeParams | Homed | MoveRelParams | MoveAbsParams | Moved | Stopped

  /** The table's key: the first five characters of the reply text. */
  function MessageId(k: Kind): (s: string)
    ensures |s| == 5
  {
    match k
    case HardwareInfo => "06 00"
    case EncCounter => "0b 04"
    case PosCounter => "12 04"
    case VelParams => "15 04"
    case JogParams => "18 04"
    case MmiParams => "22 05"
    case GenMoveParams => "3c 04"
    case HomeParams => "42 04"
    case Homed => "44 04"
    case MoveRelParams => "47 04"
    case MoveAbsParams => "52 04"
    case Moved => "64 04"
    case Stopped => "66 04"
  }

  /** The message ID as the 16-bit little-endian number in the first two bytes. */
  function MessageNumber(k: Kind): (n: nat)
    ensures n < 0x1_0000
  {
    match k
    case HardwareInfo => 0x0006
    case EncCounter => 0x040B
    case PosCounter => 0x0412
    case VelParams => 0x0415
    case JogParams => 0x0418
    case MmiParams => 0x0522
    case GenMoveParams => 0x043C
    case HomeParams => 0x0442
    case Homed => 0x0444
    case MoveRelParams => 0x0447
    case MoveAbsParams => 0x0452
    case Moved => 0x0464
    case Stopped => 0x0466
  }

  /** The name `decodereply` returns for the message. */
  function Name(k: Kind): (s: string)
    ensures |s| > 0
  {
    match k
    case HardwareInfo => "hardware info"
    case EncCounter => "Enccounter"
    case PosCounter => "Poscounter"
    case VelParams => "Velparams"
    case JogParams => "Jogparams"
    case MmiParams => "MMI parameters"
    case GenMoveParams => "GenMoveparams"
    case HomeParams => "Homeparams"
    case Homed => "homed"
    case MoveRelParams => "Moverelparams"
    case MoveAbsParams => "Moveabsparams"
    case Moved => "moved"
    case Stopped => "stopped"
  }

  /** The number of parameter bytes after the six-byte header. */
  function PayloadLength(k: Kind): (n: nat)
    ensures n == 0 <==> k == Homed
  {
    match k
    case HardwareInfo => 84
    case EncCounter => 6
    case PosCounter => 6
    case VelParams => 14
    case JogParams => 22
    case MmiParams => 36
    case GenMoveParams => 6
    case HomeParams => 14
    case Homed => 0
    case MoveRelParams => 6
    case MoveAbsParams => 6
    case Moved => 14
    case Stopped => 14
  }

  /** How the reply text writes a two-byte ID. */
  function IdText(lo: Byte, hi: Byte): (s: string)
    ensures |s| == 5 && s[2] == ' ' && s[..2] == LowerHex2(lo) && s[3..] == LowerHex2(hi)
  {
    LowerHex2(lo) + " " + LowerHex2(hi)
  }

  /** Each key of the table is the rendering of its message number. */
  lemma MessageIdText(k: Kind)
    ensures MessageId(k) == IdText(MessageNumber(k) % 256, MessageNumber(k) / 256)
  {
    match k
    case HardwareInfo =>
      assert MessageNumber(k) % 256 == 0x06 && MessageNumber(k) / 256 == 0x00;
      IdTextLit(0x06, 0x00, MessageId(k));
    case EncCounter =>
      assert MessageNumber(k) % 256 == 0x0B && MessageNumber(k) / 256 == 0x04;
      IdTextLit(0x0B, 0x04, MessageId(k));
    case PosCounter =>
      assert MessageNumber(k) % 256 == 0x12 && MessageNumber(k) / 256 == 0x04;
      IdTextLit(0x12, 0x04, MessageId(k));
    case VelParams =>
      assert MessageNumber(k) % 256 == 0x15 && MessageNumber(k) / 256 == 0x04;
      IdTextLit(0x15, 0x04, MessageId(k));
    case JogParams =>
      assert MessageNumber(k) % 256 == 0x18 && MessageNumber(k) / 256 == 0x04;
      IdTextLit(0x18, 0x04, MessageId(k));
    case MmiParams =>
      assert MessageNumber(k) % 256 == 0x22 && MessageNumber(k) / 256 == 0x05;
      IdTextLit(0x22, 0x05, MessageId(k));
    case GenMoveParams =>
      assert MessageNumber(k) % 256 == 0x3C && MessageNumber(k) / 256 == 0x04;
      IdTextLit(0x3C, 0x04, MessageId(k));
    case HomeParams =>
      assert MessageNumber(k) % 256 == 0x42 && MessageNumber(k) / 256 == 0x04;
      IdTextLit(0x42, 0x04, MessageId(k));
    case Homed =>
      assert MessageNumber(k) % 256 == 0x44 && MessageNumber(k) / 256 == 0x04;
      IdTextLit(0x44, 0x04, MessageId(k));
    case MoveRelParams =>
      assert MessageNumber(k) % 256 == 0x47 && MessageNumber(k) / 256 == 0x04;
      IdTextLit(0x47, 0x04, MessageId(k));
    case MoveAbsParams =>
      assert MessageNumber(k) % 256 == 0x52 && MessageNumber(k) / 256 == 0x04;
      IdTextLit(0x52, 0x04, MessageId(k));
    case Moved =>
      assert MessageNumber(k) % 256 == 0x64 && MessageNumber(k) / 256 == 0x04;
      IdTextLit(0x64, 0x04, MessageId(k));
    case Stopped =>
      assert MessageNumber(k) % 256 == 0x66 && MessageNumber(k) / 256 == 0x04;
      IdTextLit(0x66, 0x04, MessageId(k));
  }

  lemma IdTextLit(lo: Byte, hi: Byte, s: string)
    requires |s| == 5 && s[0] == LowerDigit(lo / 16) && s[1] == LowerDigit(lo % 16) && s[2] == ' '
    requires s[3] == LowerDigit(hi / 16) && s[4] == LowerDigit(hi % 16)
    ensures s == IdText(lo, hi)
  {
  }

  /** The `match mID` of `decodereply`: the table entry whose key is the text, if any. */
  function Lookup(mid: string): (r: Option<Kind>)
    ensures r.Some? ==> MessageId(r.value) == mid
    ensures r.None? ==> forall k :: MessageId(k) != mid
  {
    if mid == "06 00" then Some(HardwareInfo)
    else if mid == "0b 04" then Some(EncCounter)
    else if mid == "12 04" then Some(PosCounter)
    else if mid == "15 04" then Some(VelParams)
    else if mid == "18 04" then Some(JogParams)
    else if mid == "22 05" then Some(MmiParams)
    else if mid == "3c 04" then Some(GenMoveParams)
    else if mid == "42 04" then Some(HomeParams)
    else if mid == "44 04" then Some(Homed)
    else if mid == "47 04" then Some(MoveRelParams)
    else if mid == "52 04" then Some(MoveAbsParams)
    else if mid == "64 04" then Some(Moved)
    else if mid == "66 04" then Some(Stopped)
    else None
  }

  /** The kind a 16-bit message number denotes, if any: the reference the text table
      is checked against. */
  function KindOfNumber(n: int): (r: Option<Kind>)
    ensures r.Some? ==> MessageNumber(r.value) == n
    ensures r.None? ==> forall k :: MessageNumber(k) != n
  {
    if n == 0x0006 then Some(HardwareInfo)
    else if n == 0x040B then Some(EncCounter)
    else if n == 0x0412 then Some(PosCounter)
    else if n == 0x0415 then Some(VelParams)
    else if n == 0x0418 then Some(JogParams)
    else if n == 0x0522 then Some(MmiParams)
    else if n == 0x043C then Some(GenMoveParams)
    else if n == 0x0442 then Some(HomeParams)
    else if n == 0x0444 then Some(Homed)
    else if n == 0x0447 then Some(MoveRelParams)
    else if n == 0x0452 then Some(MoveAbsParams)
    else if n == 0x0464 then Some(Moved)
    else if n == 0x0466 then Some(Stopped)
    else None
  }

  /** The table has 13 distinct keys: each key looks up its own entry. */
  lemma LookupId(k: Kind)
    ensures Lookup(MessageId(k)) == Some(k)
  {
  }

  /** No two entries share a name. */
  lemma NamesDistinct(a: Kind, b: Kind)
    requires Name(a) == Name(b)
    ensures a == b
  {
  }

  lemma NumberOfId(k: Kind, lo: Byte, hi: Byte)
    requires MessageId(k) == IdText(lo, hi)
    ensures MessageNumber(k) == lo + 256 * hi
  {
    var n := MessageNumber(k);
    MessageIdText(k);
    LowerHex2Injective(lo, n % 256);
    LowerHex2Injective(hi, n / 256);
  }

  lemma IdOfNumber(k: Kind, lo: Byte, hi: Byte)
    requires MessageNumber(k) == lo + 256 * hi
    ensures MessageId(k) == IdText(lo, hi)
  {
    MessageIdText(k);
    assert MessageNumber(k) % 256 == lo && MessageNumber(k) / 256 == hi;
  }

  /** Looking up the text of two bytes finds the kind whose number they hold. */
  lemma LookupRendered(lo: Byte, hi: Byte)
    ensures Lookup(IdText(lo, hi)) == KindOfNumber(lo + 256 * hi)
  {
    var r := Lookup(IdText(lo, hi));
    var n := KindOfNumber(lo + 256 * hi);
    if r.Some? {
      NumberOfId(r.value, lo, hi);
      KindOfOwnNumber(r.value);
    } else if n.Some? {
      IdOfNumber(n.value, lo, hi);
    }
  }

  lemma KindOfOwnNumber(k: Kind)
    ensures KindOfNumber(MessageNumber(k)) == Some(k)
  {
  }

  // ---------------------------------------------------------------------------
  // decodereply

  /** The pair `decodereply` returns. */
  datatype Decoded = Decoded(msg: string, params: string)

  /** `decodereply(reply)`: the message ID is `reply[0:5]`; a known ID gives its name
      and, when its payload length L is positive, the parameters `reply[18:18+3L-1]`;
      an unknown ID gives two empty strings (after a diagnostic print). */
  function DecodeReply(reply: string): (d: Decoded)
    ensures Lookup(Slice(reply, 0, 5)).None? ==> d == Decoded("", "")
    ensures Lookup(Slice(reply, 0, 5)).Some? ==>
              var k := Lookup(Slice(reply, 0, 5)).value;
              d.msg == Name(k) && (PayloadLength(k) == 0 ==> d.params == "") && |d.params| <= 3 * PayloadLength(k)
    ensures Lookup(Slice(reply, 0, 5)).Some? && PayloadLength(Lookup(Slice(reply, 0, 5)).value) > 0 ==>
              d.params == Slice(reply, 18, 18 + (3 * PayloadLength(Lookup(Slice(reply, 0, 5)).value) - 1))
    ensures d.msg == "" ==> d.params == ""
  {
    if reply == "" then Decoded("", "")
    else
      match Lookup(Slice(reply, 0, 5))
      case None => Decoded("", "")
      case Some(k) =>
        var length := PayloadLength(k);
        Decoded(Name(k), if length > 0 then Slice(reply, 18, 18 + (3 * length - 1)) else "")
  }

  /** The kind named by the first two bytes, as a little-endian number. */
  function FirstKind(bs: seq<Byte>): (r: Option<Kind>)
    ensures r.Some? ==> |bs| >= 2 && MessageNumber(r.value) == bs[0] as int + 256 * bs[1] as int
    ensures |bs| >= 2 && r.None? ==> forall k :: MessageNumber(k) != bs[0] as int + 256 * bs[1] as int
  {
    if |bs| < 2 then None else KindOfNumber(bs[0] as int + 256 * bs[1] as int)
  }

  /** Bytes 6 up to 6 + L, as far as they are present. */
  function Payload(bs: seq<Byte>, length: nat): (p: seq<Byte>)
    ensures |p| == if |bs| <= 6 then 0 else Min(length, |bs| - 6)
    ensures |bs| >= 6 + length ==> p == bs[6..6 + length]
  {
    bs[Min(6, |bs|)..Min(6 + length, |bs|)]
  }

  /** The bytes whose rendering `decodereply` returns as parameters: the payload of
      the first message when its kind is known, nothing otherwise. */
  function ParamBytes(bs: seq<Byte>): (p: seq<Byte>)
    ensures FirstKind(bs).None? ==> p == []
    ensures FirstKind(bs).Some? ==> p == Payload(bs, PayloadLength(FirstKind(bs).value))
  {
    match FirstKind(bs)
    case None => []
    case Some(k) => Payload(bs, PayloadLength(k))
  }

  /** The first message of a byte stream, read at the byte level: its kind's name and
      the rendering of its payload, without the final space when the message is
      complete and with it when the stream ends early. */
  function FirstMessage(bs: seq<Byte>): (d: Decoded)
  {
    match FirstKind(bs)
    case None => Decoded("", "")
    case Some(k) =>
      var length := PayloadLength(k);
      var text := HexReply(Payload(bs, length));
      Decoded(Name(k), if length == 0 then "" else if |bs| >= 6 + length then Trim(text) else text)
  }

  /** The name of the first message of a byte stream, or "" when its kind is unknown. */
  function FirstName(bs: seq<Byte>): string {
    match FirstKind(bs)
    case None => ""
    case Some(k) => Name(k)
  }

  /** The first five characters of the reply text look up the kind of the first two bytes. */
  lemma IdRendered(bs: seq<Byte>)
    ensures Lookup(Slice(HexReply(bs), 0, 5)) == FirstKind(bs)
  {
    if |bs| >= 2 {
      IdPrefix(bs);
      LookupRendered(bs[0], bs[1]);
    } else {
    }
  }

  /** The first five characters of the text of two or more bytes render the first two. */
  lemma IdPrefix(bs: seq<Byte>)
    requires |bs| >= 2
    ensures Slice(HexReply(bs), 0, 5) == IdText(bs[0], bs[1])
  {
    var s := HexReply(bs);
    HexReplyTake(bs, 2);
    assert bs[..2] == [bs[0], bs[1]];
    PairText(bs[0], bs[1]);
    assert s[..5] == s[..6][..5];
  }

  lemma PairText(lo: Byte, hi: Byte)
    ensures HexReply([lo, hi]) == IdText(lo, hi) + " "
  {
    assert [lo, hi][1..] == [hi];
    assert HexReply([hi]) == LowerHex2(hi) + " " + HexReply([]);
  }

  /** `reply[18:18+3L-1]` of a complete message renders its payload without the final space. */
  lemma ParamsComplete(bs: seq<Byte>, length: nat)
    requires length > 0 && |bs| >= 6 + length
    ensures Slice(HexReply(bs), 18, 18 + (3 * length - 1)) == Trim(HexReply(Payload(bs, length)))
  {
    PayloadText(bs, length);
    ParamsBeforeLast(HexReply(bs), HexReply(Payload(bs, length)), length);
  }

  /** Characters 18 up to 18 + 3L of the text render the payload of a complete message. */
  lemma PayloadText(bs: seq<Byte>, length: nat)
    requires |bs| >= 6 + length
    ensures HexReply(bs)[18..18 + 3 * length] == HexReply(Payload(bs, length))
  {
    PayloadRange(bs, 6, 6 + length, 18, 18 + 3 * length);
    assert Payload(bs, length) == bs[6..6 + length];
  }

  lemma PayloadRange(bs: seq<Byte>, i: nat, j: nat, a: nat, b: nat)
    requires i <= j <= |bs| && a == 3 * i && b == 3 * j
    ensures HexReply(bs)[a..b] == HexReply(bs[i..j])
  {
    HexReplyRange(bs, i, j);
  }

  lemma ParamsBeforeLast(s: string, t: string, length: nat)
    requires 0 < length && 18 + 3 * length <= |s| && s[18..18 + 3 * length] == t
    ensures Slice(s, 18, 18 + (3 * length - 1)) == Trim(t)
  {
  }

  /** On a message cut short, `reply[18:18+3L-1]` is the rest of the text, final space included. */
  lemma ParamsTruncated(bs: seq<Byte>, length: nat)
    requires length > 0 && |bs| < 6 + length
    ensures Slice(HexReply(bs), 18, 18 + (3 * length - 1)) == HexReply(Payload(bs, length))
  {
    if |bs| >= 6 {
      TextAfterHeader(bs, 18 + (3 * length - 1));
      PayloadAfterHeader(bs, length);
    } else {
      ShortPayload(bs, length);
    }
  }

  lemma TextAfterHeader(bs: seq<Byte>, j: nat)
    requires 6 <= |bs| && 3 * |bs| <= j
    ensures Slice(HexReply(bs), 18, j) == HexReply(bs[6..])
  {
    HexReplyDrop(bs, 6);
    assert Slice(HexReply(bs), 18, j) == HexReply(bs)[18..];
  }

  lemma PayloadAfterHeader(bs: seq<Byte>, length: nat)
    requires 6 <= |bs| < 6 + length
    ensures Payload(bs, length) == bs[6..]
  {
  }

  lemma ShortPayload(bs: seq<Byte>, length: nat)
    requires |bs| < 6
    ensures Slice(HexReply(bs), 18, 18 + (3 * length - 1)) == HexReply(Payload(bs, length))
  {
    assert Payload(bs, length) == [];
    assert HexReply([]) == [];
  }

  /** Decoding the text `recvreply` builds from a byte stream is reading the stream's
      first message: the ID of bytes 0 and 1, and the hex of bytes 6 up to 6 + L. */
  lemma DecodeRendered(bs: seq<Byte>)
    ensures DecodeReply(HexReply(bs)) == FirstMessage(bs)
  {
    IdRendered(bs);
    if FirstKind(bs).Some? {
      var length := PayloadLength(FirstKind(bs).value);
      if length > 0 && |bs| >= 6 + length {
        ParamsComplete(bs, length);
      } else if length > 0 {
        ParamsTruncated(bs, length);
      }
    }
  }

  /** The parameters render the payload bytes; a complete message with a payload gives
      3L - 1 characters. */
  lemma ParamsRendered(bs: seq<Byte>)
    ensures Rendered(FirstMessage(bs).params, ParamBytes(bs))
    ensures FirstKind(bs).Some? && 0 < PayloadLength(FirstKind(bs).value) && |bs| >= 6 + PayloadLength(FirstKind(bs).value) ==>
              |FirstMessage(bs).params| == 3 * PayloadLength(FirstKind(bs).value) - 1
  {
    if FirstKind(bs).Some? && PayloadLength(FirstKind(bs).value) == 0 {
      assert HexReply([]) == "";
    }
  }

  /** Only the first message counts: whatever follows a complete message in the same
      read leaves the decoded name and parameters as they were. */
  lemma FirstMessageOnly(bs: seq<Byte>, more: seq<Byte>)
    requires FirstKind(bs).Some? && |bs| >= 6 + PayloadLength(FirstKind(bs).value)
    ensures FirstMessage(bs + more) == FirstMessage(bs)
    ensures DecodeReply(HexReply(bs + more)) == DecodeReply(HexReply(bs))
  {
    var length := PayloadLength(FirstKind(bs).value);
    assert (bs + more)[..6 + length] == bs[..6 + length];
    assert Payload(bs + more, length) == Payload(bs, length);
    DecodeRendered(bs);
    DecodeRendered(bs + more);
  }

  /** The message `decodereply` names on `recvreply` text is the first message's name. */
  lemma NameRendered(bs: seq<Byte>)
    ensures DecodeReply(HexReply(bs)).msg == FirstName(bs)
  {
    DecodeRendered(bs);
  }

  /** An empty read decodes to two empty strings. */
  lemma EmptyReply()
    ensures DecodeReply(HexReply([])) == Decoded("", "")
  {
    DecodeRendered([]);
  }
}
